/** Linear-interpolation percentiles: the benchmark's (rank in percent) and the metrics package's (rank as a
    fraction). */
module Percentile {
  import opened Common
  import opened Reals

  ghost predicate IsSorted(s: seq<real>) { forall i, j | 0 <= i < j < |s| :: s[i] <= s[j] }

  function Insert(x: real, s: seq<real>): seq<real> {
    if s == [] || x <= s[0] then [x] + s else [s[0]] + Insert(x, s[1..])
  }

  /** Stands for sort.Float64s on a copy. */
  function Sorted(v: seq<real>): seq<real> {
    if v == [] then [] else Insert(v[0], Sorted(v[1..]))
  }

  lemma {:induction false} InsertAddsOne(x: real, s: seq<real>)
    ensures multiset(Insert(x, s)) == multiset(s) + multiset{x}
  {
    if s != [] && x > s[0] {
      InsertAddsOne(x, s[1..]);
      assert s == [s[0]] + s[1..];
    }
  }

  lemma {:induction false} InsertKeepsSorted(x: real, s: seq<real>)
    requires IsSorted(s)
    ensures IsSorted(Insert(x, s))
  {
    if s != [] && x > s[0] {
      var tail := Insert(x, s[1..]);
      InsertKeepsSorted(x, s[1..]);
      InsertAddsOne(x, s[1..]);
      forall i | 0 <= i < |tail| ensures s[0] <= tail[i] {
        assert tail[i] in multiset(tail);
        assert tail[i] == x || tail[i] in multiset(s[1..]);
      }
    }
  }

  lemma {:induction false} SortedSorts(v: seq<real>)
    ensures IsSorted(Sorted(v)) && multiset(Sorted(v)) == multiset(v) && |Sorted(v)| == |v|
  {
    if v != [] {
      SortedSorts(v[1..]);
      InsertKeepsSorted(v[0], Sorted(v[1..]));
      InsertAddsOne(v[0], Sorted(v[1..]));
      assert v == [v[0]] + v[1..];
      assert |Sorted(v)| == |multiset(Sorted(v))|;
    }
  }

  /** The interpolated value at a fractional rank: the line between the two neighbours. */
  ghost function At(s: seq<real>, rank: real): real
    requires s != [] && 0.0 <= rank <= (|s| - 1) as real
  {
    var lo := rank.Floor;
    if lo == |s| - 1 then s[lo] else Mix(s[lo], s[lo + 1], rank - lo as real)
  }

  /** The fractional rank of fraction `p` among `n + 1` values. */
  function Rank(p: real, n: int): real { p * n as real }

  lemma RankInRange(p: real, n: nat)
    requires 0.0 <= p <= 1.0
    ensures 0.0 <= Rank(p, n) <= n as real
  {
    ScaleMonotone(n as real, 0.0, p);
    ScaleMonotone(n as real, p, 1.0);
  }

  /** The percentile at fraction `p` by definition. */
  ghost function Interpolated(v: seq<real>, p: real): Option<real>
    requires 0.0 <= p <= 1.0
  {
    if v == [] then None
    else
      RankInRange(p, |v| - 1);
      SortedSorts(v);
      Some(At(Sorted(v), Rank(p, |v| - 1)))
  }

  lemma InterpolatedIsAt(v: seq<real>, p: real, s: seq<real>, rank: real)
    requires v != [] && 0.0 <= p <= 1.0 && s == Sorted(v) && rank == Rank(p, |s| - 1)
    ensures s != [] && 0.0 <= rank <= (|s| - 1) as real && Interpolated(v, p) == Some(At(s, rank))
  {
    SortedSorts(v);
    RankInRange(p, |v| - 1);
  }

  /** The benchmark's percentile, `p` in percent. */
  method Pctile(v: seq<real>, p: real) returns (r: Option<real>)
    requires 0.0 <= p <= 100.0
    ensures r == Interpolated(v, p / 100.0)
  {
    if |v| == 0 {
      return None;
    }
    var s := Sorted(v);
    SortedSorts(v);
    RankInRange(p / 100.0, |s| - 1);
    if |s| == 1 {
      return Some(s[0]);
    }
    var rank := Rank(p / 100.0, |s| - 1);
    InterpolatedIsAt(v, p / 100.0, s, rank);
    var lo := rank.Floor;
    var hi := -((-rank).Floor);
    if lo == hi {
      AtWhole(s, rank);
      return Some(s[lo]);
    }
    r := Some(Mix(s[lo], s[hi], rank - lo as real));
  }

  /** The metrics package's percentile, `p` a fraction. */
  method Pct(values: seq<real>, p: real) returns (r: Option<real>)
    requires 0.0 <= p <= 1.0
    ensures r == Interpolated(values, p)
  {
    if |values| == 0 {
      return None;
    }
    var s := Sorted(values);
    SortedSorts(values);
    RankInRange(p, |s| - 1);
    if |s| == 1 {
      return Some(s[0]);
    }
    var rank := Rank(p, |s| - 1);
    InterpolatedIsAt(values, p, s, rank);
    var low := rank.Floor;
    var high := low + 1;
    if high > |s| - 1 {
      high := |s| - 1;
    }
    var weight := rank - low as real;
    AtByWeights(s, rank, high);
    r := Some(Weighted(s[low], s[high], weight));
  }

  lemma MixEnds(a: real, b: real)
    ensures Mix(a, b, 0.0) == a && Mix(a, b, 1.0) == b
  {
  }

  /** The weighted form of the same line; at the last rank both neighbours are the last value. */
  lemma AtByWeights(s: seq<real>, rank: real, high: int)
    requires s != [] && 0.0 <= rank <= (|s| - 1) as real
    requires high == if rank.Floor + 1 > |s| - 1 then |s| - 1 else rank.Floor + 1
    ensures var w := rank - rank.Floor as real;
            Weighted(s[rank.Floor], s[high], w) == At(s, rank)
  {
    var low := rank.Floor;
    var w := rank - low as real;
    if low == |s| - 1 {
      assert w == 0.0;
    } else {
      WeightedSum(s[low], s[high], w);
    }
  }

  /** At a whole rank the value is the element itself. */
  lemma AtWhole(s: seq<real>, rank: real)
    requires s != [] && 0.0 <= rank <= (|s| - 1) as real && rank == rank.Floor as real
    ensures At(s, rank) == s[rank.Floor]
  {
    if rank.Floor < |s| - 1 {
      MixEnds(s[rank.Floor], s[rank.Floor + 1]);
    }
  }

  /** The two implementations are the same percentile. */
  method Agree(v: seq<real>, p: real) returns (a: Option<real>, b: Option<real>)
    requires 0.0 <= p <= 1.0
    ensures a == b == Interpolated(v, p)
  {
    a := Pctile(v, 100.0 * p);
    b := Pct(v, p);
  }

  lemma AtBetweenNeighbours(s: seq<real>, rank: real)
    requires s != [] && IsSorted(s) && 0.0 <= rank <= (|s| - 1) as real
    ensures s[rank.Floor] <= At(s, rank) <= s[if rank.Floor == |s| - 1 then |s| - 1 else rank.Floor + 1]
  {
    var lo := rank.Floor;
    if lo < |s| - 1 {
      MixBetween(s[lo], s[lo + 1], rank - lo as real);
    }
  }

  /** Between the smallest and the largest value, growing with the rank. */
  lemma AtMonotone(s: seq<real>, r1: real, r2: real)
    requires s != [] && IsSorted(s) && 0.0 <= r1 <= r2 <= (|s| - 1) as real
    ensures s[0] <= At(s, r1) <= At(s, r2) <= s[|s| - 1]
  {
    AtBetweenNeighbours(s, r1);
    AtBetweenNeighbours(s, r2);
    var lo := r1.Floor;
    if lo == r2.Floor && lo < |s| - 1 {
      MixMonotone(s[lo], s[lo + 1], r1 - lo as real, r2 - lo as real);
    }
  }

  ghost predicate Bounds(v: seq<real>, lo: real, hi: real) {
    forall x | x in v :: lo <= x <= hi
  }

  lemma SortedMember(v: seq<real>, i: nat)
    requires i < |v|
    ensures |Sorted(v)| == |v| && Sorted(v)[i] in v
  {
    SortedSorts(v);
    assert Sorted(v)[i] in multiset(Sorted(v));
  }

  /** A percentile lies in every range that holds the values, and grows with the fraction asked for. */
  lemma PercentileMonotone(v: seq<real>, p: real, q: real, lo: real, hi: real)
    requires v != [] && 0.0 <= p <= q <= 1.0 && Bounds(v, lo, hi)
    ensures lo <= Interpolated(v, p).value <= Interpolated(v, q).value <= hi
  {
    var s, n := Sorted(v), |v| - 1;
    SortedSorts(v);
    RankInRange(p, n);
    RankInRange(q, n);
    ScaleMonotone(n as real, p, q);
    AtMonotone(s, Rank(p, n), Rank(q, n));
    SortedMember(v, 0);
    SortedMember(v, n);
  }

  lemma {:induction false} SortedIsUnique(a: seq<real>, b: seq<real>)
    requires IsSorted(a) && IsSorted(b) && multiset(a) == multiset(b)
    ensures a == b
  {
    assert |a| == |multiset(a)| && |b| == |multiset(b)|;
    if a != [] {
      SameFirst(a, b);
      SameFirst(b, a);
      TailOf(a);
      TailOf(b);
      SortedIsUnique(a[1..], b[1..]);
    }
  }

  lemma SameFirst(a: seq<real>, b: seq<real>)
    requires IsSorted(a) && IsSorted(b) && a != [] && b != [] && multiset(a) == multiset(b)
    ensures b[0] <= a[0]
  {
    assert a[0] in multiset(b);
    var j :| 0 <= j < |b| && b[j] == a[0];
  }

  lemma TailOf(s: seq<real>)
    requires s != []
    ensures multiset(s[1..]) == multiset(s) - multiset{s[0]} && s == [s[0]] + s[1..]
  {
    assert s == [s[0]] + s[1..];
  }

  /** Input order does not matter. */
  lemma PercentileIgnoresOrder(v: seq<real>, w: seq<real>, p: real)
    requires multiset(v) == multiset(w) && 0.0 <= p <= 1.0
    ensures Interpolated(v, p) == Interpolated(w, p)
  {
    SortedSorts(v);
    SortedSorts(w);
    SortedIsUnique(Sorted(v), Sorted(w));
  }

  lemma AtOnTheLine(s: seq<real>, rank: real, k: nat)
    requires k + 1 < |s| && k as real <= rank <= k as real + 1.0
    ensures At(s, rank) == s[k] + (s[k + 1] - s[k]) * (rank - k as real)
  {
    if rank == k as real + 1.0 {
      AtWhole(s, rank);
      MixEnds(s[k], s[k + 1]);
    } else {
      assert rank.Floor == k;
    }
  }

  /** Which rank a fraction stands for: the fractions k / n of `n + 1` values are the values themselves in order, and
      from one to the next the percentile moves on a straight line. */
  lemma PercentileIsLinearBetweenRanks(v: seq<real>, s: seq<real>, p: real, rank: real, k: nat)
    requires 0.0 <= p <= 1.0 && IsSorted(s) && multiset(s) == multiset(v) && k + 1 < |v|
    requires rank == p * (|v| - 1) as real && k as real <= rank <= k as real + 1.0
    ensures |s| == |v| && Interpolated(v, p) == Some(s[k] + (s[k + 1] - s[k]) * (rank - k as real))
  {
    SortedSorts(v);
    SortedIsUnique(s, Sorted(v));
    InterpolatedIsAt(v, p, s, rank);
    AtOnTheLine(s, rank, k);
  }

  lemma FractionInRange(k: nat, n: nat)
    requires 0 < n && k <= n
    ensures 0.0 <= k as real / n as real <= 1.0 && k as real / n as real * n as real == k as real
  {
    FracMonotone(0.0, k as real, n as real);
    FracMonotone(k as real, n as real, n as real);
    DivMul(k as real, n as real);
  }

  lemma AtRankIsElement(s: seq<real>, rank: real, k: nat)
    requires k < |s| && rank == k as real
    ensures At(s, rank) == s[k]
  {
    AtWhole(s, rank);
  }

  /** The percentile at k / n of `n + 1` values is the k-th smallest, counted from zero. */
  lemma PercentileAtWholeRank(v: seq<real>, s: seq<real>, k: nat, n: nat)
    requires IsSorted(s) && multiset(s) == multiset(v) && |v| == n + 1 && k <= n && n > 0
    ensures 0.0 <= k as real / n as real <= 1.0
    ensures |s| == |v| && Interpolated(v, k as real / n as real) == Some(s[k])
  {
    FractionInRange(k, n);
    SortedSorts(v);
    SortedIsUnique(s, Sorted(v));
    InterpolatedIsAt(v, k as real / n as real, s, k as real);
    AtRankIsElement(s, k as real, k);
  }

  /** Of one value every percentile is that value, and of none there is none. */
  lemma PercentileOfFew(v: seq<real>, p: real)
    requires 0.0 <= p <= 1.0 && |v| <= 1
    ensures Interpolated(v, p) == if v == [] then None else Some(v[0])
  {
    if v != [] {
      SortedSorts(v);
      assert v == [v[0]];
      SortedIsUnique(Sorted(v), [v[0]]);
      RankInRange(p, 0);
    }
  }
}
