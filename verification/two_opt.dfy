/** The 2-opt local search of one restart.

    A sweep visits every pair of interior positions `(start, stop)` in
    lexicographic order, reverses that segment of the current tour, records the
    candidate, and adopts it at once when it is strictly shorter. Sweeps repeat
    while the relative improvement of the last sweep exceeds the threshold.
 */
module TwoOpt {
  import opened Tours

  /** One evaluated candidate: a tour and its cost. */
  datatype Candidate = Candidate(tour: Tour, cost: nat)

  /** The state of one restart: the current tour, its cost, and every candidate
      evaluated so far, in evaluation order. */
  datatype Search = Search(tour: Tour, dist: nat, trajectory: seq<Candidate>)

  // ---------------------------------------------------------------------------
  // The reversal candidate

  /** Python's normalisation of a slice bound when the step is negative: a
      negative bound counts from the end, and one still negative after that
      means "past the front". */
  function BackBound(b: int, len: nat): (r: int)
    requires len > 0
    ensures -1 <= r < len
  {
    if b < 0 then (if b + len < 0 then -1 else b + len)
    else if b >= len then len - 1
    else b
  }

  /** The slice `s[hi:lo:-1]` with `lo` already normalised: `s[hi]`, `s[hi - 1]`,
      down to `s[lo + 1]`. */
  function DownSlice(s: Tour, hi: int, lo: int): (r: Tour)
    requires -1 <= lo <= hi < |s|
    ensures |r| == hi - lo
    ensures forall k {:trigger r[k]} :: 0 <= k < |r| ==> r[k] == s[hi - k]
    decreases hi - lo
  {
    if hi == lo then [] else [s[hi]] + DownSlice(s, hi - 1, lo)
  }

  /** The candidate tour of the pair `(start, stop)`: the slices before the
      segment, the segment read backwards, and the slices after it. Positions
      outside `start .. stop` keep their stop; inside, the order is mirrored. */
  function Reversal(t: Tour, start: int, stop: int): (r: Tour)
    requires 1 <= start < stop < |t|
    ensures |r| == |t|
    ensures forall k :: 0 <= k < start ==> r[k] == t[k]
    ensures forall k :: stop < k < |t| ==> r[k] == t[k]
    ensures forall k {:trigger r[k]} :: start <= k <= stop ==> r[k] == t[start + stop - k]
  {
    t[0..start] + DownSlice(t, stop, BackBound(-|t| + start - 1, |t|)) + t[stop + 1..|t|]
  }

  /** A candidate visits exactly the stops of its tour, as often as the tour
      does, and so stays inside the table whenever the tour does. */
  lemma ReversalInRange(m: Matrix, t: Tour, start: int, stop: int)
    requires InRange(m, t) && 1 <= start < stop < |t|
    ensures InRange(m, Reversal(t, start, stop))
    ensures multiset(Reversal(t, start, stop)) == multiset(t)
  {
    ReversalSplit(t, start, stop);
    ReverseMultiset(t[start..stop + 1]);
    assert t == t[..start] + t[start..stop + 1] + t[stop + 1..];
    var r := Reversal(t, start, stop);
    forall k | 0 <= k < |r| ensures 0 <= r[k] < |m| {
      if start <= k <= stop {
        assert r[k] == t[start + stop - k];
      }
    }
  }

  /** Reversing the same segment twice restores the tour. */
  lemma ReversalInvolution(t: Tour, start: int, stop: int)
    requires 1 <= start < stop < |t|
    ensures Reversal(Reversal(t, start, stop), start, stop) == t
  {
    var r := Reversal(Reversal(t, start, stop), start, stop);
    assert forall k :: 0 <= k < |t| ==> r[k] == t[k];
  }

  /** The candidate is the same tour with the segment replaced by its reverse. */
  lemma ReversalSplit(t: Tour, start: int, stop: int)
    requires 1 <= start < stop < |t|
    ensures Reversal(t, start, stop) == t[..start] + Reverse(t[start..stop + 1]) + t[stop + 1..]
  {
    var r := Reversal(t, start, stop);
    var s := t[..start] + Reverse(t[start..stop + 1]) + t[stop + 1..];
    assert |r| == |s|;
    forall k | 0 <= k < |r| ensures r[k] == s[k] {
      if start <= k <= stop {
        assert s[k] == Reverse(t[start..stop + 1])[k - start];
      }
    }
  }

  lemma {:induction false} ReverseMultiset(xs: Tour)
    ensures multiset(Reverse(xs)) == multiset(xs)
    decreases |xs|
  {
    if |xs| > 0 {
      assert Reverse(xs) == Reverse(xs[1..]) + [xs[0]];
      ReverseMultiset(xs[1..]);
      assert xs == [xs[0]] + xs[1..];
    }
  }

  /** The candidate of an interior pair is again a depot-anchored tour and
      visits the same stops. */
  lemma ReversalKeepsTour(m: Matrix, t: Tour, num: int, start: int, stop: int)
    requires ValidTour(t, num)
    requires 1 <= start < stop <= num - 2
    ensures ValidTour(Reversal(t, start, stop), num)
  {
    var r := Reversal(t, start, stop);
    var inner := t[1..num - 1];
    var rinner := r[1..num - 1];
    InteriorReversal(t, num, start, stop);
    ReverseMultiset(inner[start - 1..stop]);
    assert inner == inner[..start - 1] + inner[start - 1..stop] + inner[stop..];
    assert multiset(rinner) == multiset(inner);
  }

  /** The interior of a candidate is the interior of the tour with the
      segment reversed. */
  lemma InteriorReversal(t: Tour, num: int, start: int, stop: int)
    requires |t| == num && 1 <= start < stop <= num - 2
    ensures Reversal(t, start, stop)[1..num - 1]
         == t[1..num - 1][..start - 1] + Reverse(t[1..num - 1][start - 1..stop]) + t[1..num - 1][stop..]
  {
    var inner := t[1..num - 1];
    var rinner := Reversal(t, start, stop)[1..num - 1];
    var s := inner[..start - 1] + Reverse(inner[start - 1..stop]) + inner[stop..];
    assert |rinner| == |s|;
    forall k | 0 <= k < |s| ensures rinner[k] == s[k] {
      assert rinner[k] == Reversal(t, start, stop)[k + 1];
      if k < start - 1 {
        assert s[k] == inner[k] == t[k + 1];
      } else if k < stop {
        var seg := inner[start - 1..stop];
        assert s[k] == Reverse(seg)[k - start + 1] == seg[stop - 1 - k];
        assert seg[stop - 1 - k] == inner[start + stop - 2 - k];
        assert inner[start + stop - 2 - k] == t[start + stop - (k + 1)];
      } else {
        assert s[k] == inner[k] == t[k + 1];
      }
    }
  }

  /** The classic 2-opt exchange: over a symmetric table, reversing an interior
      segment swaps the two legs at its ends and leaves the rest of the cost as
      it was. */
  lemma ReversalCostDelta(m: Matrix, t: Tour, start: int, stop: int)
    requires IsSquare(m) && Symmetric(m) && InRange(m, t)
    requires 1 <= start < stop < |t| - 1
    ensures InRange(m, Reversal(t, start, stop))
    ensures Cost(m, Reversal(t, start, stop)) + Entry(m, t[start - 1], t[start]) + Entry(m, t[stop], t[stop + 1])
         == Cost(m, t) + Entry(m, t[start - 1], t[stop]) + Entry(m, t[start], t[stop + 1])
  {
    var a, mid, b := t[..start], t[start..stop + 1], t[stop + 1..];
    var r := Reversal(t, start, stop);
    ReversalInRange(m, t, start, stop);
    assert Cost(m, t) == Cost(m, a) + Entry(m, t[start - 1], t[start]) + Cost(m, mid)
                         + Entry(m, t[stop], t[stop + 1]) + Cost(m, b) by {
      assert t == a + mid + b;
      CostSplit3(m, a, mid, b);
    }
    assert Cost(m, r) == Cost(m, a) + Entry(m, t[start - 1], t[stop]) + Cost(m, mid)
                         + Entry(m, t[start], t[stop + 1]) + Cost(m, b) by {
      var rev := Reverse(mid);
      ReversalSplit(t, start, stop);
      CostReverse(m, mid);
      CostSplit3(m, a, rev, b);
      assert rev[0] == t[stop] && rev[|rev| - 1] == t[start];
    }
  }

  // ---------------------------------------------------------------------------
  // The order of a sweep

  /** The pairs with first component `start`: `stop` runs over `start + 1 .. num - 2`. */
  function Row(start: int, num: int): seq<(int, int)>
  {
    seq(if start + 1 <= num - 2 then num - 2 - start else 0, i => (start, start + 1 + i))
  }

  /** All rows with `start` in `1 .. below - 1`, in order. */
  function PairsBelow(below: int, num: int): seq<(int, int)>
    decreases below
  {
    if below <= 1 then [] else PairsBelow(below - 1, num) + Row(below - 1, num)
  }

  /** The pairs one sweep evaluates, in evaluation order. */
  function SweepPairs(num: int): seq<(int, int)>
  {
    PairsBelow(num - 2, num)
  }

  /** The number of candidates in one sweep. */
  function SweepSize(num: int): nat
  {
    if num >= 3 then (num - 2) * (num - 3) / 2 else 0
  }

  predicate LexLess(p: (int, int), q: (int, int))
  {
    p.0 < q.0 || (p.0 == q.0 && p.1 < q.1)
  }

  /** Every pair is a segment of positions `1 .. hi - 1` with at least two stops. */
  predicate PairsFit(ps: seq<(int, int)>, hi: int)
  {
    forall i :: 0 <= i < |ps| ==> 1 <= ps[i].0 < ps[i].1 < hi
  }

  lemma {:induction false} PairsBelowShape(below: int, num: int)
    ensures forall i :: 0 <= i < |PairsBelow(below, num)| ==>
      1 <= PairsBelow(below, num)[i].0 < PairsBelow(below, num)[i].1 <= num - 2
      && PairsBelow(below, num)[i].0 < below
    ensures forall i, j :: 0 <= i < j < |PairsBelow(below, num)| ==>
      LexLess(PairsBelow(below, num)[i], PairsBelow(below, num)[j])
    ensures forall s, e :: 1 <= s < e <= num - 2 && s < below ==> (s, e) in PairsBelow(below, num)
    decreases below
  {
    if below > 1 {
      PairsBelowShape(below - 1, num);
      var prev, row := PairsBelow(below - 1, num), Row(below - 1, num);
      assert PairsBelow(below, num) == prev + row;
      forall s, e | 1 <= s < e <= num - 2 && s < below
        ensures (s, e) in PairsBelow(below, num)
      {
        if s == below - 1 {
          assert row[e - s - 1] == (s, e);
        }
      }
    }
  }

  /** A sweep evaluates exactly the pairs `1 <= start < stop <= num - 2`. */
  lemma SweepPairsExact(num: int, start: int, stop: int)
    ensures (start, stop) in SweepPairs(num) <==> 1 <= start < stop <= num - 2
  {
    PairsBelowShape(num - 2, num);
  }

  /** A sweep evaluates its pairs in strictly increasing lexicographic order. */
  lemma SweepPairsOrdered(num: int)
    ensures forall i, j :: 0 <= i < j < |SweepPairs(num)| ==> LexLess(SweepPairs(num)[i], SweepPairs(num)[j])
  {
    PairsBelowShape(num - 2, num);
  }

  lemma {:induction false} PairsBelowCount(below: int, num: int)
    requires 1 <= below <= num - 2
    ensures 2 * |PairsBelow(below, num)| == (below - 1) * (2 * num - 4 - below)
    decreases below
  {
    if below > 1 {
      PairsBelowCount(below - 1, num);
      assert |Row(below - 1, num)| == num - 1 - below;
    }
  }

  /** One sweep evaluates `(num - 2)(num - 3)/2` candidates, none when `num <= 3`. */
  lemma SweepPairsCount(num: int)
    ensures |SweepPairs(num)| == SweepSize(num)
  {
    if num >= 3 {
      PairsBelowCount(num - 2, num);
    }
  }

  /** The sweep's pairs fit any tour with at least `num - 1` stops. */
  lemma SweepPairsFit(num: int, len: int)
    requires len >= num - 1
    ensures PairsFit(SweepPairs(num), len)
  {
    PairsBelowShape(num - 2, num);
  }

  // ---------------------------------------------------------------------------
  // The sweep

  /** Evaluate the candidate of one pair: record it, and adopt it when it is
      strictly shorter than the current tour. */
  function Step(m: Matrix, st: Search, p: (int, int)): Search
    requires IsSquare(m) && InRange(m, st.tour)
    requires 1 <= p.0 < p.1 < |st.tour|
  {
    var cand := Reversal(st.tour, p.0, p.1);
    ReversalInRange(m, st.tour, p.0, p.1);
    var c := Cost(m, cand);
    var trajectory := st.trajectory + [Candidate(cand, c)];
    if c < st.dist then Search(cand, c, trajectory) else Search(st.tour, st.dist, trajectory)
  }

  /** Evaluate the pairs `ps` in order, starting from `st`. */
  function SweepOver(m: Matrix, st: Search, ps: seq<(int, int)>): (r: Search)
    requires IsSquare(m) && InRange(m, st.tour)
    requires PairsFit(ps, |st.tour|)
    ensures |r.tour| == |st.tour| && InRange(m, r.tour)
    ensures r.dist <= st.dist
    ensures |r.trajectory| == |st.trajectory| + |ps|
    ensures r.trajectory[..|st.trajectory|] == st.trajectory
    decreases |ps|
  {
    if |ps| == 0 then st
    else
      var before := SweepOver(m, st, ps[..|ps| - 1]);
      Step(m, before, ps[|ps| - 1])
  }

  /** One full sweep of a solver with `num` positions. */
  function Sweep(m: Matrix, st: Search, num: int): (r: Search)
    requires IsSquare(m) && InRange(m, st.tour) && |st.tour| >= num - 1
  {
    SweepPairsFit(num, |st.tour|);
    SweepOver(m, st, SweepPairs(num))
  }

  /** The cost carried by the search is the cost of its tour, and every
      recorded candidate carries its own cost. */
  predicate CostsAgree(m: Matrix, st: Search)
    requires IsSquare(m)
  {
    && InRange(m, st.tour) && st.dist == Cost(m, st.tour)
    && forall j :: 0 <= j < |st.trajectory| ==>
         InRange(m, st.trajectory[j].tour) && st.trajectory[j].cost == Cost(m, st.trajectory[j].tour)
  }

  /** A sweep keeps the carried cost equal to the cost of the carried tour. */
  lemma {:induction false} SweepKeepsCost(m: Matrix, st: Search, ps: seq<(int, int)>)
    requires IsSquare(m) && CostsAgree(m, st)
    requires PairsFit(ps, |st.tour|)
    ensures CostsAgree(m, SweepOver(m, st, ps))
    decreases |ps|
  {
    if |ps| > 0 {
      var before := SweepOver(m, st, ps[..|ps| - 1]);
      SweepKeepsCost(m, st, ps[..|ps| - 1]);
      var p := ps[|ps| - 1];
      var r := SweepOver(m, st, ps);
      assert r == Step(m, before, p);
      var cand := Reversal(before.tour, p.0, p.1);
      ReversalInRange(m, before.tour, p.0, p.1);
      assert r.trajectory == before.trajectory + [Candidate(cand, Cost(m, cand))];
      forall j | 0 <= j < |r.trajectory|
        ensures InRange(m, r.trajectory[j].tour) && r.trajectory[j].cost == Cost(m, r.trajectory[j].tour)
      {
        if j < |before.trajectory| {
          assert r.trajectory[j] == before.trajectory[j];
        }
      }
    }
  }

  /** Every tour a sweep visits or records is a depot-anchored tour when the
      sweep starts from one. */
  predicate ToursValid(st: Search, num: int)
  {
    && ValidTour(st.tour, num)
    && forall j :: 0 <= j < |st.trajectory| ==> ValidTour(st.trajectory[j].tour, num)
  }

  lemma {:induction false} SweepKeepsTour(m: Matrix, st: Search, ps: seq<(int, int)>, num: int)
    requires IsSquare(m) && InRange(m, st.tour)
    requires ToursValid(st, num)
    requires PairsFit(ps, num - 1)
    ensures ToursValid(SweepOver(m, st, ps), num)
    decreases |ps|
  {
    if |ps| > 0 {
      SweepKeepsTour(m, st, ps[..|ps| - 1], num);
      StepKeepsTour(m, SweepOver(m, st, ps[..|ps| - 1]), ps[|ps| - 1], num);
    }
  }

  lemma StepKeepsTour(m: Matrix, st: Search, p: (int, int), num: int)
    requires IsSquare(m) && InRange(m, st.tour)
    requires ToursValid(st, num)
    requires 1 <= p.0 < p.1 < num - 1
    ensures ToursValid(Step(m, st, p), num)
  {
    StepShape(m, st, p);
    ReversalKeepsTour(m, st.tour, num, p.0, p.1);
    var r := Step(m, st, p);
    forall j | 0 <= j < |r.trajectory|
      ensures ValidTour(r.trajectory[j].tour, num)
    {
      if j < |st.trajectory| {
        assert r.trajectory[j] == r.trajectory[..|st.trajectory|][j];
      }
    }
  }

  /** A step records the candidate and keeps either the old tour or the candidate. */
  lemma StepShape(m: Matrix, st: Search, p: (int, int))
    requires IsSquare(m) && InRange(m, st.tour)
    requires 1 <= p.0 < p.1 < |st.tour|
    ensures Step(m, st, p).trajectory[..|st.trajectory|] == st.trajectory
    ensures Step(m, st, p).trajectory[|st.trajectory|].tour == Reversal(st.tour, p.0, p.1)
    ensures |Step(m, st, p).trajectory| == |st.trajectory| + 1
    ensures Step(m, st, p).tour == st.tour || Step(m, st, p).tour == Reversal(st.tour, p.0, p.1)
  {
  }

  /** What the strict comparison makes of a run from `st0` to `r`: the cost
      never rises; the final cost is at most that of every candidate recorded
      on the way; an unchanged cost means an unchanged tour; and a lower cost
      means the final tour is the FIRST recorded candidate reaching that cost. */
  predicate AdoptsFirstBest(st0: Search, r: Search)
  {
    && |st0.trajectory| <= |r.trajectory|
    && r.dist <= st0.dist
    && (forall j :: |st0.trajectory| <= j < |r.trajectory| ==> r.dist <= r.trajectory[j].cost)
    && (r.dist == st0.dist ==> r.tour == st0.tour)
    && (r.dist < st0.dist ==>
          exists k :: |st0.trajectory| <= k < |r.trajectory| && r.trajectory[k] == Candidate(r.tour, r.dist)
            && forall j :: |st0.trajectory| <= j < k ==> r.trajectory[j].cost > r.dist)
  }

  lemma {:induction false} SweepAdoptsFirstBest(m: Matrix, st: Search, ps: seq<(int, int)>)
    requires IsSquare(m) && InRange(m, st.tour)
    requires PairsFit(ps, |st.tour|)
    ensures AdoptsFirstBest(st, SweepOver(m, st, ps))
    decreases |ps|
  {
    if |ps| > 0 {
      var before := SweepOver(m, st, ps[..|ps| - 1]);
      SweepAdoptsFirstBest(m, st, ps[..|ps| - 1]);
      assert SweepOver(m, st, ps) == Step(m, before, ps[|ps| - 1]);
      StepAdvances(m, before, ps[|ps| - 1]);
      AdoptsFirstBestStep(st, before, SweepOver(m, st, ps));
    }
  }

  /** One step seen from outside: it appends one candidate, whose cost is at
      least the new cost, and either adopts that candidate at a lower cost or
      keeps the tour and its cost. */
  predicate Advances(before: Search, r: Search)
  {
    var n := |before.trajectory|;
    && |r.trajectory| == n + 1
    && r.trajectory[..n] == before.trajectory
    && r.dist <= r.trajectory[n].cost
    && ((r.dist < before.dist && r.trajectory[n] == Candidate(r.tour, r.dist))
        || (r.dist == before.dist && r.tour == before.tour))
  }

  lemma StepAdvances(m: Matrix, st: Search, p: (int, int))
    requires IsSquare(m) && InRange(m, st.tour)
    requires 1 <= p.0 < p.1 < |st.tour|
    ensures Advances(st, Step(m, st, p))
  {
    var r := Step(m, st, p);
    assert r.trajectory[..|st.trajectory|] == st.trajectory;
  }

  lemma AdoptsFirstBestStep(st0: Search, before: Search, r: Search)
    requires AdoptsFirstBest(st0, before) && Advances(before, r)
    ensures AdoptsFirstBest(st0, r)
  {
    var n := |before.trajectory|;
    assert forall j :: 0 <= j < n ==> r.trajectory[j] == before.trajectory[j] by {
      forall j | 0 <= j < n ensures r.trajectory[j] == before.trajectory[j] {
        assert r.trajectory[..n][j] == r.trajectory[j];
      }
    }
    if r.dist < before.dist {
      assert r.trajectory[n] == Candidate(r.tour, r.dist);
    } else if r.dist < st0.dist {
      var k :| |st0.trajectory| <= k < n && before.trajectory[k] == Candidate(before.tour, before.dist)
          && forall j :: |st0.trajectory| <= j < k ==> before.trajectory[j].cost > before.dist;
      assert r.trajectory[k] == before.trajectory[k];
    }
  }

  /** The pairs evaluated before `(start, stop)` in a sweep. */
  function Done(start: int, stop: int, num: int): seq<(int, int)>
    requires start + 1 <= stop
  {
    var row := Row(start, num);
    PairsBelow(start, num) + row[..if stop - start - 1 <= |row| then stop - start - 1 else |row|]
  }

  lemma DoneFacts(start: int, stop: int, num: int, len: int)
    requires 1 <= start < num - 2 && start + 1 <= stop <= num - 1
    requires len >= num - 1
    ensures PairsFit(Done(start, stop, num), len)
    ensures stop < num - 1 ==> Done(start, stop + 1, num) == Done(start, stop, num) + [(start, stop)]
    ensures stop == num - 1 ==> Done(start, stop, num) == PairsBelow(start + 1, num)
  {
    PairsBelowShape(start + 1, num);
    assert Done(start, stop, num) == PairsBelow(start + 1, num)[..|Done(start, stop, num)|];
  }

  lemma SweepOverSnoc(m: Matrix, st: Search, ps: seq<(int, int)>, p: (int, int))
    requires IsSquare(m) && InRange(m, st.tour)
    requires PairsFit(ps + [p], |st.tour|)
    ensures PairsFit(ps, |st.tour|)
    ensures SweepOver(m, st, ps + [p]) == Step(m, SweepOver(m, st, ps), p)
  {
    assert PairsFit(ps, |st.tour|) by {
      forall i | 0 <= i < |ps| ensures 1 <= ps[i].0 < ps[i].1 < |st.tour| {
        assert ps[i] == (ps + [p])[i];
      }
    }
    assert (ps + [p])[..|ps|] == ps;
  }

  /** `r` is the search after every row with first component below `start`. */
  predicate SweptBelow(m: Matrix, st: Search, num: int, start: int, r: Search)
    requires IsSquare(m) && InRange(m, st.tour)
  {
    PairsFit(PairsBelow(start, num), |st.tour|) && r == SweepOver(m, st, PairsBelow(start, num))
  }

  /** `r` is the search after the pairs of a sweep before `(start, stop)`. */
  predicate SweptBefore(m: Matrix, st: Search, num: int, start: int, stop: int, r: Search)
    requires IsSquare(m) && InRange(m, st.tour) && start + 1 <= stop
  {
    PairsFit(Done(start, stop, num), |st.tour|) && r == SweepOver(m, st, Done(start, stop, num))
  }

  /** The inner loop of a sweep: every `stop` for one `start`. */
  method RunRow(m: Matrix, st: Search, num: int, start: int, r0: Search) returns (r: Search)
    requires IsSquare(m) && InRange(m, st.tour) && |st.tour| >= num - 1
    requires 1 <= start < num - 2
    requires SweptBelow(m, st, num, start, r0)
    ensures SweptBelow(m, st, num, start + 1, r)
  {
    r := r0;
    var stop := start + 1;
    RowBegins(m, st, num, start, r);
    while stop < num - 1
      invariant start + 1 <= stop <= num - 1
      invariant SweptBefore(m, st, num, start, stop, r)
    {
      r := RowStep(m, st, num, start, stop, r);
      stop := stop + 1;
    }
    RowEnds(m, st, num, start, r);
  }

  lemma RowBegins(m: Matrix, st: Search, num: int, start: int, r: Search)
    requires IsSquare(m) && InRange(m, st.tour) && |st.tour| >= num - 1
    requires 1 <= start < num - 2
    requires SweptBelow(m, st, num, start, r)
    ensures SweptBefore(m, st, num, start, start + 1, r)
  {
    DoneFacts(start, start + 1, num, |st.tour|);
    assert Done(start, start + 1, num) == PairsBelow(start, num);
  }

  lemma RowEnds(m: Matrix, st: Search, num: int, start: int, r: Search)
    requires IsSquare(m) && InRange(m, st.tour) && |st.tour| >= num - 1
    requires 1 <= start < num - 2
    requires SweptBefore(m, st, num, start, num - 1, r)
    ensures SweptBelow(m, st, num, start + 1, r)
  {
    DoneFacts(start, num - 1, num, |st.tour|);
  }

  /** One pass of the inner loop body: the candidate of `(start, stop)`. */
  function RowStep(m: Matrix, st: Search, num: int, start: int, stop: int, r: Search): (r': Search)
    requires IsSquare(m) && InRange(m, st.tour) && |st.tour| >= num - 1
    requires 1 <= start < num - 2 && start + 1 <= stop < num - 1
    requires SweptBefore(m, st, num, start, stop, r)
    ensures SweptBefore(m, st, num, start, stop + 1, r')
  {
    DoneFacts(start, stop + 1, num, |st.tour|);
    DoneFacts(start, stop, num, |st.tour|);
    SweepOverSnoc(m, st, Done(start, stop, num), (start, stop));
    Step(m, r, (start, stop))
  }

  /** The sweep as the source writes it: `start` ascending, and for each
      `start` the row of `stop` values. */
  method RunSweep(m: Matrix, st: Search, num: int) returns (r: Search)
    requires IsSquare(m) && InRange(m, st.tour) && |st.tour| >= num - 1
    ensures r == Sweep(m, st, num)
  {
    r := st;
    var start := 1;
    while start < num - 2
      invariant 1 <= start && (start <= num - 2 || start == 1)
      invariant SweptBelow(m, st, num, start, r)
    {
      r := RunRow(m, st, num, start, r);
      start := start + 1;
    }
    SweepPairsReached(m, st, num, start, r);
  }

  lemma SweepPairsReached(m: Matrix, st: Search, num: int, start: int, r: Search)
    requires IsSquare(m) && InRange(m, st.tour) && |st.tour| >= num - 1
    requires 1 <= start && (start <= num - 2 || start == 1) && start >= num - 2
    requires SweptBelow(m, st, num, start, r)
    ensures r == Sweep(m, st, num)
  {
    assert PairsBelow(start, num) == SweepPairs(num);
  }

  // ---------------------------------------------------------------------------
  // Convergence

  /** The relative improvement `1 - cur / prev` of one sweep. */
  function Score(prev: nat, cur: nat): real
    requires prev > 0
  {
    1.0 - (cur as real) / (prev as real)
  }

  /** The loop test `score > thresh` after a sweep from cost `prev` to `cur`,
      cleared of the division. When `prev` is zero the quotient is not a
      number and the test fails. */
  predicate KeepGoing(prev: nat, cur: nat, thresh: real)
  {
    prev > 0 && (prev - cur) as real > thresh * (prev as real)
  }

  /** For a non-zero previous cost, the test is exactly `1 - cur / prev > thresh`. */
  lemma KeepGoingIsScore(prev: nat, cur: nat, thresh: real)
    requires prev > 0
    ensures KeepGoing(prev, cur, thresh) <==> Score(prev, cur) > thresh
  {
    var p, c := prev as real, cur as real;
    assert Score(prev, cur) * p == p - c;
    if Score(prev, cur) > thresh {
      assert Score(prev, cur) * p > thresh * p;
    }
    if (prev - cur) as real > thresh * p {
      assert Score(prev, cur) * p > thresh * p;
    }
  }

  /** With a non-negative threshold another sweep runs only after a strict
      improvement. */
  lemma KeepGoingDecreases(prev: nat, cur: nat, thresh: real)
    requires thresh >= 0.0
    requires KeepGoing(prev, cur, thresh)
    ensures cur < prev
  {
    assert thresh * (prev as real) >= 0.0;
  }

  /** Sweeps from `st` until the score no longer exceeds the threshold. */
  function Sweeps(m: Matrix, st: Search, num: int, thresh: real): (r: Search)
    requires IsSquare(m) && InRange(m, st.tour) && |st.tour| >= num - 1
    requires thresh >= 0.0
    ensures |r.tour| == |st.tour| && InRange(m, r.tour)
    ensures r.dist <= st.dist
    decreases st.dist
  {
    var next := Sweep(m, st, num);
    if KeepGoing(st.dist, next.dist, thresh) then
      KeepGoingDecreases(st.dist, next.dist, thresh);
      Sweeps(m, next, num, thresh)
    else next
  }

  /** One restart from `tour`. The score starts at 1, so no sweep runs at all
      when the threshold is 1 or more. */
  function TwoOptRun(m: Matrix, tour: Tour, num: int, thresh: real): Search
    requires IsSquare(m) && InRange(m, tour) && |tour| >= num - 1
    requires thresh >= 0.0
  {
    var st := Search(tour, Cost(m, tour), []);
    if 1.0 > thresh then Sweeps(m, st, num, thresh) else st
  }

  lemma {:induction false} SweepsKeepCost(m: Matrix, st: Search, num: int, thresh: real)
    requires IsSquare(m) && InRange(m, st.tour) && |st.tour| >= num - 1
    requires thresh >= 0.0
    requires CostsAgree(m, st)
    ensures CostsAgree(m, Sweeps(m, st, num, thresh))
    decreases st.dist
  {
    SweepPairsFit(num, |st.tour|);
    var next := Sweep(m, st, num);
    SweepKeepsCost(m, st, SweepPairs(num));
    if KeepGoing(st.dist, next.dist, thresh) {
      KeepGoingDecreases(st.dist, next.dist, thresh);
      SweepsKeepCost(m, next, num, thresh);
    }
  }

  lemma {:induction false} SweepsKeepTour(m: Matrix, st: Search, num: int, thresh: real)
    requires IsSquare(m) && InRange(m, st.tour) && |st.tour| >= num - 1
    requires thresh >= 0.0
    requires ToursValid(st, num)
    ensures ToursValid(Sweeps(m, st, num, thresh), num)
    decreases st.dist
  {
    SweepPairsFit(num, num - 1);
    var next := Sweep(m, st, num);
    SweepKeepsTour(m, st, SweepPairs(num), num);
    if KeepGoing(st.dist, next.dist, thresh) {
      KeepGoingDecreases(st.dist, next.dist, thresh);
      SweepsKeepTour(m, next, num, thresh);
    }
  }

  lemma {:induction false} SweepsAdoptFirstBest(m: Matrix, st: Search, num: int, thresh: real)
    requires IsSquare(m) && InRange(m, st.tour) && |st.tour| >= num - 1
    requires thresh >= 0.0
    ensures AdoptsFirstBest(st, Sweeps(m, st, num, thresh))
    ensures Sweeps(m, st, num, thresh).trajectory[..|st.trajectory|] == st.trajectory
    decreases st.dist
  {
    SweepPairsFit(num, |st.tour|);
    var next := Sweep(m, st, num);
    SweepAdoptsFirstBest(m, st, SweepPairs(num));
    if KeepGoing(st.dist, next.dist, thresh) {
      KeepGoingDecreases(st.dist, next.dist, thresh);
      var last := Sweeps(m, next, num, thresh);
      SweepsAdoptFirstBest(m, next, num, thresh);
      AdoptsFirstBestTrans(st, next, last);
      assert last.trajectory[..|st.trajectory|] == last.trajectory[..|next.trajectory|][..|st.trajectory|];
    }
  }

  lemma AdoptsFirstBestTrans(a: Search, b: Search, c: Search)
    requires AdoptsFirstBest(a, b) && AdoptsFirstBest(b, c)
    requires c.trajectory[..|b.trajectory|] == b.trajectory
    ensures AdoptsFirstBest(a, c)
  {
    forall j | |a.trajectory| <= j < |b.trajectory|
      ensures c.trajectory[j] == b.trajectory[j]
    {
      assert c.trajectory[..|b.trajectory|][j] == c.trajectory[j];
    }
    if c.dist < b.dist {
      var k :| |b.trajectory| <= k < |c.trajectory| && c.trajectory[k] == Candidate(c.tour, c.dist)
          && forall j :: |b.trajectory| <= j < k ==> c.trajectory[j].cost > c.dist;
      assert forall j :: |a.trajectory| <= j < k ==> c.trajectory[j].cost > c.dist;
    } else if c.dist < a.dist {
      var k :| |a.trajectory| <= k < |b.trajectory| && b.trajectory[k] == Candidate(b.tour, b.dist)
          && forall j :: |a.trajectory| <= j < k ==> b.trajectory[j].cost > b.dist;
      assert c.trajectory[k] == Candidate(c.tour, c.dist);
    }
  }

  /** A restart ends on a tour whose carried cost is its true cost and is at
      most the starting cost and the cost of every candidate it evaluated; a
      lower final cost is the first evaluated candidate of that cost, an equal
      one is the starting tour itself; and a depot-anchored start yields only
      depot-anchored tours. */
  lemma TwoOptRunFacts(m: Matrix, tour: Tour, num: int, thresh: real)
    requires IsSquare(m) && InRange(m, tour) && |tour| >= num - 1
    requires thresh >= 0.0
    ensures CostsAgree(m, TwoOptRun(m, tour, num, thresh))
    ensures AdoptsFirstBest(Search(tour, Cost(m, tour), []), TwoOptRun(m, tour, num, thresh))
    ensures ValidTour(tour, num) ==> ToursValid(TwoOptRun(m, tour, num, thresh), num)
  {
    var st := Search(tour, Cost(m, tour), []);
    if 1.0 > thresh {
      SweepsKeepCost(m, st, num, thresh);
      SweepsAdoptFirstBest(m, st, num, thresh);
      if ValidTour(tour, num) {
        SweepsKeepTour(m, st, num, thresh);
      }
    }
  }

  /** A threshold of 1 or more stops before the first sweep: the restart
      returns its starting tour with an empty trajectory. */
  lemma TwoOptNoSweep(m: Matrix, tour: Tour, num: int, thresh: real)
    requires IsSquare(m) && InRange(m, tour) && |tour| >= num - 1
    requires thresh >= 1.0
    ensures TwoOptRun(m, tour, num, thresh) == Search(tour, Cost(m, tour), [])
  {
  }

  /** The restart as the source writes it: a `while` loop on the score.
      `sweeps` counts the sweeps performed. */
  method RunTwoOpt(m: Matrix, tour: Tour, num: int, thresh: real) returns (r: Search, sweeps: nat)
    requires IsSquare(m) && InRange(m, tour) && |tour| >= num - 1
    requires thresh >= 0.0
    ensures r == TwoOptRun(m, tour, num, thresh)
    ensures |r.trajectory| == sweeps * |SweepPairs(num)|
    ensures sweeps >= 1 <==> 1.0 > thresh
  {
    var initial := Cost(m, tour);
    r := Search(tour, initial, []);
    sweeps := 0;
    var size := |SweepPairs(num)|;
    var running := 1.0 > thresh;
    while running
      invariant |r.tour| == |tour| && InRange(m, r.tour)
      invariant (if running then Sweeps(m, r, num, thresh) else r) == TwoOptRun(m, tour, num, thresh)
      invariant |r.trajectory| == sweeps * size
      invariant sweeps >= 1 || (running <==> 1.0 > thresh)
      invariant sweeps >= 1 ==> 1.0 > thresh
      decreases r.dist + (if running then 1 else 0)
    {
      r, running := SweepAndScore(m, r, num, thresh);
      MulSucc(sweeps, size);
      sweeps := sweeps + 1;
    }
  }

  /** One pass of the `while` body: a sweep, then the score test. */
  method SweepAndScore(m: Matrix, st: Search, num: int, thresh: real) returns (r: Search, running: bool)
    requires IsSquare(m) && InRange(m, st.tour) && |st.tour| >= num - 1
    requires thresh >= 0.0
    ensures |r.tour| == |st.tour| && InRange(m, r.tour)
    ensures Sweeps(m, st, num, thresh) == if running then Sweeps(m, r, num, thresh) else r
    ensures |r.trajectory| == |st.trajectory| + |SweepPairs(num)|
    ensures running ==> r.dist < st.dist
  {
    var distPrev := st.dist;
    r := RunSweep(m, st, num);
    SweepShape(m, st, num);
    SweepsUnfold(m, st, num, thresh);
    running := KeepGoing(distPrev, r.dist, thresh);
    if running {
      KeepGoingDecreases(distPrev, r.dist, thresh);
    }
  }

  lemma SweepShape(m: Matrix, st: Search, num: int)
    requires IsSquare(m) && InRange(m, st.tour) && |st.tour| >= num - 1
    ensures |Sweep(m, st, num).tour| == |st.tour| && InRange(m, Sweep(m, st, num).tour)
    ensures |Sweep(m, st, num).trajectory| == |st.trajectory| + |SweepPairs(num)|
    ensures Sweep(m, st, num).dist <= st.dist
  {
  }

  lemma SweepsUnfold(m: Matrix, st: Search, num: int, thresh: real)
    requires IsSquare(m) && InRange(m, st.tour) && |st.tour| >= num - 1
    requires thresh >= 0.0
    ensures Sweeps(m, st, num, thresh)
         == if KeepGoing(st.dist, Sweep(m, st, num).dist, thresh) then Sweeps(m, Sweep(m, st, num), num, thresh)
            else Sweep(m, st, num)
  {
  }

  lemma MulSucc(a: nat, b: nat)
    ensures (a + 1) * b == a * b + b
  {
  }
}
