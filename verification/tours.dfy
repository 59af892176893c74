/** Distance tables, tours and tour cost.

    A solver is built over a square distance table with one row and one column
    per location; location 0 is the depot. The solver's `num` is the number of
    locations plus one, which is also the length of a tour: the depot, every
    other location once, and the depot again.
 */
module Tours {

  /** The distance table as the loader builds it: `m[row][col]`. */
  type Matrix = seq<seq<nat>>

  /** A tour is a sequence of location indices. Explicitly supplied tours are not
      checked, so the type admits any integers. */
  type Tour = seq<int>

  predicate IsSquare(m: Matrix)
  {
    forall r :: 0 <= r < |m| ==> |m[r]| == |m|
  }

  /** Every stop of `t` names a row (and a column) of `m`. */
  predicate InRange(m: Matrix, t: Tour)
  {
    forall i :: 0 <= i < |t| ==> 0 <= t[i] < |m|
  }

  predicate Symmetric(m: Matrix)
    requires IsSquare(m)
  {
    forall a, b :: 0 <= a < |m| && 0 <= b < |m| ==> m[a][b] == m[b][a]
  }

  /** The lookup `frame[a][b]` of the solver. The frame is indexed column first,
      then row, so this reads row `b`, column `a` of the table. */
  function Entry(m: Matrix, a: int, b: int): nat
    requires IsSquare(m)
    requires 0 <= a < |m| && 0 <= b < |m|
  {
    m[b][a]
  }

  /** Total distance of a tour: the sum, over consecutive stops, of the
      lookup from one stop to the next. */
  function Cost(m: Matrix, t: Tour): nat
    requires IsSquare(m) && InRange(m, t)
  {
    if |t| <= 1 then 0 else Entry(m, t[0], t[1]) + Cost(m, t[1..])
  }

  /** `_get_fulldist`: the lookup of every leg in order, and their sum. */
  method GetFullDist(m: Matrix, t: Tour) returns (fulldist: nat, legs: seq<nat>)
    requires IsSquare(m) && InRange(m, t)
    ensures |legs| == if |t| >= 1 then |t| - 1 else 0
    ensures forall i :: 0 <= i < |legs| ==> legs[i] == Entry(m, t[i], t[i + 1])
    ensures fulldist == Cost(m, t)
  {
    fulldist, legs := 0, [];
    if |t| == 0 {
      return;
    }
    var i := 0;
    while i < |t| - 1
      invariant 0 <= i <= |t| - 1
      invariant |legs| == i
      invariant forall j :: 0 <= j < i ==> legs[j] == Entry(m, t[j], t[j + 1])
      invariant InRange(m, t[..i + 1]) && fulldist == Cost(m, t[..i + 1])
    {
      var leg := Entry(m, t[i], t[i + 1]);
      assert t[..i + 2] == t[..i + 1] + [t[i + 1]];
      CostAppend(m, t[..i + 1], [t[i + 1]]);
      legs := legs + [leg];
      fulldist := fulldist + leg;
      i := i + 1;
    }
    assert t[..i + 1] == t;
  }

  /** The integers `lo`, `lo + 1`, ..., `hi - 1`, like Python's `range(lo, hi)`. */
  function Range(lo: int, hi: int): (r: seq<int>)
    ensures |r| == if lo <= hi then hi - lo else 0
    ensures forall i :: 0 <= i < |r| ==> r[i] == lo + i
    decreases hi - lo
  {
    if lo < hi then Range(lo, hi - 1) + [hi - 1] else []
  }

  /** `xs` holds each of `1 .. num - 2` exactly once, as a shuffle of `range(1, num - 1)` does. */
  predicate IsShuffle(xs: seq<int>, num: int)
  {
    multiset(xs) == multiset(Range(1, num - 1))
  }

  /** A depot-anchored tour for a solver with `num` positions. */
  predicate ValidTour(t: Tour, num: int)
  {
    && num >= 2
    && |t| == num
    && t[0] == 0
    && t[num - 1] == 0
    && IsShuffle(t[1..num - 1], num)
  }

  function Reverse(xs: Tour): (r: Tour)
    ensures |r| == |xs|
    ensures forall i {:trigger r[i]} :: 0 <= i < |xs| ==> r[i] == xs[|xs| - 1 - i]
  {
    seq(|xs|, i requires 0 <= i < |xs| => xs[|xs| - 1 - i])
  }

  // ---------------------------------------------------------------------------
  // Facts about shuffles and tours

  lemma RangeMembers(lo: int, hi: int, v: int)
    ensures v in multiset(Range(lo, hi)) <==> lo <= v < hi
  {
    if lo <= v < hi {
      assert Range(lo, hi)[v - lo] == v;
    }
  }

  /** A shuffle holds every value of `1 .. num - 2` exactly once and nothing else. */
  lemma ShuffleMeans(xs: seq<int>, num: int)
    requires IsShuffle(xs, num)
    ensures |xs| == if num >= 2 then num - 2 else 0
    ensures forall i :: 0 <= i < |xs| ==> 1 <= xs[i] <= num - 2
    ensures forall v :: 1 <= v <= num - 2 ==> multiset(xs)[v] == 1
    ensures forall i, j :: 0 <= i < j < |xs| ==> xs[i] != xs[j]
  {
    assert |multiset(xs)| == |xs|;
    assert |multiset(Range(1, num - 1))| == |Range(1, num - 1)|;
    ShuffleBounds(xs, num);
    ShuffleCounts(xs, num);
    ShuffleDistinct(xs, num);
  }

  lemma ShuffleBounds(xs: seq<int>, num: int)
    requires IsShuffle(xs, num)
    ensures forall i :: 0 <= i < |xs| ==> 1 <= xs[i] <= num - 2
  {
    forall i | 0 <= i < |xs|
      ensures 1 <= xs[i] <= num - 2
    {
      assert xs[i] in multiset(xs);
      RangeMembers(1, num - 1, xs[i]);
    }
  }

  lemma ShuffleCounts(xs: seq<int>, num: int)
    requires IsShuffle(xs, num)
    ensures forall v :: 1 <= v <= num - 2 ==> multiset(xs)[v] == 1
  {
    forall v | 1 <= v <= num - 2
      ensures multiset(xs)[v] == 1
    {
      RangeCountsOne(1, num - 1, v);
    }
  }

  lemma ShuffleDistinct(xs: seq<int>, num: int)
    requires IsShuffle(xs, num)
    ensures forall i, j :: 0 <= i < j < |xs| ==> xs[i] != xs[j]
  {
    forall i, j | 0 <= i < j < |xs|
      ensures xs[i] != xs[j]
    {
      if xs[i] == xs[j] {
        TwiceCounts(xs, i, j);
        RangeCountsOne(1, num - 1, xs[i]);
        assert false;
      }
    }
  }

  lemma {:induction false} RangeCountsOne(lo: int, hi: int, v: int)
    requires lo <= v < hi
    ensures multiset(Range(lo, hi))[v] == 1
    decreases hi - lo
  {
    var prev := Range(lo, hi - 1);
    assert multiset(Range(lo, hi)) == multiset(prev) + multiset{hi - 1} by {
      assert Range(lo, hi) == prev + [hi - 1];
    }
    if v == hi - 1 {
      RangeMembers(lo, hi - 1, v);
    } else {
      RangeCountsOne(lo, hi - 1, v);
    }
  }

  lemma TwiceCounts(xs: seq<int>, i: int, j: int)
    requires 0 <= i < j < |xs| && xs[i] == xs[j]
    ensures multiset(xs)[xs[i]] >= 2
  {
    assert xs == xs[..i] + [xs[i]] + xs[i + 1..j] + [xs[j]] + xs[j + 1..];
  }

  /** A valid tour only visits locations of a table with `num - 1` rows. */
  lemma ValidTourInRange(m: Matrix, t: Tour, num: int)
    requires ValidTour(t, num) && |m| == num - 1
    ensures InRange(m, t)
  {
    ShuffleMeans(t[1..num - 1], num);
    forall i | 0 <= i < |t|
      ensures 0 <= t[i] < |m|
    {
      if 0 < i < num - 1 {
        assert t[i] == t[1..num - 1][i - 1];
      }
    }
  }

  /** Wrapping a shuffle with the depot at both ends gives a valid tour, and
      the shuffle is the tour's interior. */
  lemma {:induction false} WrapShuffle(xs: seq<int>, num: int)
    requires IsShuffle(xs, num) && num >= 2
    ensures ValidTour([0] + xs + [0], num)
    ensures ([0] + xs + [0])[1..num - 1] == xs
  {
    ShuffleMeans(xs, num);
    assert ([0] + xs + [0])[1..num - 1] == xs;
  }

  // ---------------------------------------------------------------------------
  // Facts about cost

  /** Cost is additive over concatenation, with the one leg that joins the two parts. */
  lemma {:induction false} CostAppend(m: Matrix, a: Tour, b: Tour)
    requires IsSquare(m) && InRange(m, a) && InRange(m, b)
    requires |a| >= 1 && |b| >= 1
    ensures InRange(m, a + b)
    ensures Cost(m, a + b) == Cost(m, a) + Entry(m, a[|a| - 1], b[0]) + Cost(m, b)
    decreases |a|
  {
    assert InRange(m, a + b);
    if |a| == 1 {
      assert (a + b)[1..] == b;
    } else {
      assert (a + b)[1..] == a[1..] + b;
      CostAppend(m, a[1..], b);
    }
  }

  /** The cost of three consecutive parts: their own costs and the two joining legs. */
  lemma CostSplit3(m: Matrix, a: Tour, mid: Tour, b: Tour)
    requires IsSquare(m) && InRange(m, a) && InRange(m, mid) && InRange(m, b)
    requires |a| >= 1 && |mid| >= 1 && |b| >= 1
    ensures InRange(m, a + mid + b)
    ensures Cost(m, a + mid + b)
         == Cost(m, a) + Entry(m, a[|a| - 1], mid[0]) + Cost(m, mid) + Entry(m, mid[|mid| - 1], b[0]) + Cost(m, b)
  {
    var am := a + mid;
    assert am[|am| - 1] == mid[|mid| - 1];
    CostAppend(m, a, mid);
    CostAppend(m, am, b);
  }

  /** Over a symmetric table a tour and its reverse cost the same. */
  lemma {:induction false} CostReverse(m: Matrix, t: Tour)
    requires IsSquare(m) && Symmetric(m) && InRange(m, t)
    ensures InRange(m, Reverse(t))
    ensures Cost(m, Reverse(t)) == Cost(m, t)
    decreases |t|
  {
    var r := Reverse(t);
    assert InRange(m, r) by {
      forall i | 0 <= i < |r| ensures 0 <= r[i] < |m| {
        assert r[i] == t[|t| - 1 - i];
      }
    }
    if |t| >= 2 {
      var rest := t[1..];
      assert r == Reverse(rest) + [t[0]];
      CostReverse(m, rest);
      CostAppend(m, Reverse(rest), [t[0]]);
      assert Reverse(rest)[|rest| - 1] == t[1];
    }
  }
}
