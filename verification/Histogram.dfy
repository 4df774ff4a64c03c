/** Merging the replicas' cumulative latency histograms and reading quantiles off the result. */
module Histogram {
  import opened Common
  import opened Reals

  /** A bucket's upper bound: the `le` label. */
  datatype Bound = Finite(v: real) | PosInf

  type Buckets = map<Bound, real>

  predicate Less(a: Bound, b: Bound) {
    a.Finite? && (b.PosInf? || a.v < b.v)
  }

  // ---------- Listing the bounds in order ----------

  ghost predicate Increasing(les: seq<Bound>) {
    forall i, j | 0 <= i < j < |les| :: Less(les[i], les[j])
  }

  ghost predicate Lists(les: seq<Bound>, keys: set<Bound>) {
    Increasing(les) && forall le :: le in les <==> le in keys
  }

  function Insert(le: Bound, les: seq<Bound>): (r: seq<Bound>)
    requires Increasing(les) && le !in les
    ensures Increasing(r)
    ensures forall x :: x in r <==> x == le || x in les
  {
    if les == [] || Less(le, les[0]) then [le] + les
    else
      assert forall x :: x in les <==> x == les[0] || x in les[1..];
      var tail := Insert(le, les[1..]);
      assert forall x | x in tail :: Less(les[0], x);
      [les[0]] + tail
  }

  /** Stands for sort.Float64s on the collected keys, which are distinct. */
  function Sorted(les: seq<Bound>): (r: seq<Bound>)
    requires forall i, j | 0 <= i < j < |les| :: les[i] != les[j]
    ensures Increasing(r)
    ensures forall x :: x in r <==> x in les
  {
    if les == [] then []
    else
      assert forall x :: x in les <==> x == les[0] || x in les[1..];
      Insert(les[0], Sorted(les[1..]))
  }

  lemma {:induction false} ListingIsUnique(a: seq<Bound>, b: seq<Bound>, keys: set<Bound>)
    requires Lists(a, keys) && Lists(b, keys)
    ensures a == b
  {
    assert a != [] ==> a[0] in keys;
    assert b != [] ==> b[0] in keys;
    if a != [] && b != [] {
      assert a[0] in b && b[0] in a;
      assert a[0] == b[0];
      var rest := keys - {a[0]};
      assert forall le :: le in a <==> le == a[0] || le in a[1..];
      assert forall le :: le in b <==> le == b[0] || le in b[1..];
      ListingIsUnique(a[1..], b[1..], rest);
    }
  }

  ghost function Ordered(keys: set<Bound>): (les: seq<Bound>)
    ensures Lists(les, keys)
  {
    if keys == {} then []
    else
      var le :| le in keys;
      Insert(le, Ordered(keys - {le}))
  }

  // ---------- The scan ----------

  datatype Row = Row(le: Bound, cum: real)

  ghost function Rows(buckets: Buckets): (rows: seq<Row>)
    ensures |rows| == |Ordered(buckets.Keys)|
    ensures forall i | 0 <= i < |rows| ::
              rows[i].le == Ordered(buckets.Keys)[i] && rows[i].le in buckets && rows[i].cum == buckets[rows[i].le]
  {
    var les := Ordered(buckets.Keys);
    seq(|les|, i requires 0 <= i < |les| => assert les[i] in les; Row(les[i], buckets[les[i]]))
  }

  /** The point at which the line from (a, p) to (b, c) reaches `rank`. */
  function Interpolate(a: real, b: real, p: real, c: real, rank: real): real
    requires c != p
  {
    var frac := (rank - p) / (c - p);
    a + frac * (b - a)
  }

  ghost function Scan(rows: seq<Row>, rank: real, prevLe: real, prevCount: real): real {
    if rows == [] then prevLe
    else
      var Row(le, cum) := rows[0];
      if cum >= rank then
        if le.PosInf? then prevLe
        else if cum == prevCount then le.v
        else Interpolate(prevLe, le.v, prevCount, cum, rank)
      else
        Scan(rows[1..], rank, if le.PosInf? then prevLe else le.v, cum)
  }

  /** Where the scan places a rank. */
  ghost function RankPoint(rank: real, buckets: Buckets): real {
    Scan(Rows(buckets), rank, 0.0, 0.0)
  }

  function Rank(q: real, total: real): real { q * total }

  ghost function Quantile(q: real, buckets: Buckets, total: real): real { RankPoint(Rank(q, total), buckets) }

  /** The bounds, collected from the map in any order and sorted. */
  method SortedBounds(buckets: Buckets) returns (les: seq<Bound>)
    ensures les == Ordered(buckets.Keys)
  {
    les := [];
    var pending := buckets.Keys;
    while pending != {}
      invariant pending <= buckets.Keys
      invariant forall le :: le in les <==> le in buckets.Keys - pending
      invariant forall i, j | 0 <= i < j < |les| :: les[i] != les[j]
      decreases pending
    {
      var le :| le in pending;
      assert forall i | 0 <= i < |les| :: les[i] in les;
      les := les + [le];
      pending := pending - {le};
    }
    les := Sorted(les);
    ListingIsUnique(les, Ordered(buckets.Keys), buckets.Keys);
  }

  method HistogramQuantile(q: real, buckets: Buckets, total: real) returns (r: real)
    ensures r == Quantile(q, buckets, total)
  {
    var les := SortedBounds(buckets);
    ghost var rows := Rows(buckets);
    var rank := Rank(q, total);
    ghost var answer := RankPoint(rank, buckets);
    var prevLe, prevCount := 0.0, 0.0;
    var i := 0;
    assert rows[0..] == rows;
    while i < |les|
      invariant 0 <= i <= |les|
      invariant Scan(rows[i..], rank, prevLe, prevCount) == answer
    {
      var le := les[i];
      ScanStep(rows, i, rank, prevLe, prevCount);
      var cum := buckets[le];
      if cum >= rank {
        if le.PosInf? {
          return prevLe;
        }
        if cum == prevCount {
          return le.v;
        }
        return Interpolate(prevLe, le.v, prevCount, cum, rank);
      }
      if !le.PosInf? {
        prevLe := le.v;
      }
      prevCount := cum;
      i := i + 1;
    }
    r := prevLe;
  }

  lemma ScanStep(rows: seq<Row>, i: nat, rank: real, prevLe: real, prevCount: real)
    requires i < |rows|
    ensures Scan(rows[i..], rank, prevLe, prevCount) ==
            (var Row(le, cum) := rows[i];
             if cum >= rank then
               if le.PosInf? then prevLe
               else if cum == prevCount then le.v
               else Interpolate(prevLe, le.v, prevCount, cum, rank)
             else Scan(rows[i + 1..], rank, if le.PosInf? then prevLe else le.v, cum))
  {
    assert rows[i..][0] == rows[i] && rows[i..][1..] == rows[i + 1..];
  }

  function QuantileApplies(buckets: Buckets, total: real): bool {
    total > 0.0 && buckets != map[]
  }

  method QuantileMs(q: real, buckets: Buckets, total: real) returns (r: Option<real>)
    ensures r == ReportedMs(q, buckets, total)
  {
    if total <= 0.0 || buckets == map[] {
      return None;
    }
    var x := HistogramQuantile(q, buckets, total);
    r := Some(x * 1000.0);
  }

  ghost function ReportedMs(q: real, buckets: Buckets, total: real): Option<real> {
    if QuantileApplies(buckets, total) then Some(Quantile(q, buckets, total) * 1000.0) else None
  }

  // ---------- The interpolated distribution ----------

  /** A cumulative histogram of positive values: bounds increase, only the last may be infinite, counts never drop. */
  ghost predicate Cumulative(rows: seq<Row>, prevLe: real, prevCount: real) {
    rows != [] ==>
      && prevCount <= rows[0].cum
      && (if rows[0].le.PosInf? then |rows| == 1
          else prevLe < rows[0].le.v && Cumulative(rows[1..], rows[0].le.v, rows[0].cum))
  }

  function Lerp(a: real, b: real, p: real, c: real, x: real): real
    requires a < b
  {
    p + (c - p) * ((x - a) / (b - a))
  }

  /** How many observations lie at or below `x`, spreading each bucket's evenly over its range. */
  ghost function Cdf(rows: seq<Row>, prevLe: real, prevCount: real, x: real): real
    requires Cumulative(rows, prevLe, prevCount)
  {
    if rows == [] || rows[0].le.PosInf? then prevCount
    else if x <= rows[0].le.v then Lerp(prevLe, rows[0].le.v, prevCount, rows[0].cum, x)
    else Cdf(rows[1..], rows[0].le.v, rows[0].cum, x)
  }

  /** Count and bound at the end of the finite buckets. */
  ghost function Top(rows: seq<Row>, prevCount: real): real {
    if rows == [] || rows[0].le.PosInf? then prevCount else Top(rows[1..], rows[0].cum)
  }

  ghost function LastBound(rows: seq<Row>, prevLe: real): real {
    if rows == [] || rows[0].le.PosInf? then prevLe else LastBound(rows[1..], rows[0].le.v)
  }

  /** Solving the line through (a, p) and (b, c) for `rank`. */
  lemma LerpInverts(a: real, b: real, p: real, c: real, rank: real)
    requires a < b && p < rank <= c
    ensures var r := Interpolate(a, b, p, c, rank);
            a < r <= b && Lerp(a, b, p, c, r) == rank
  {
    var f, w := (rank - p) / (c - p), b - a;
    FractionOf(rank - p, c - p);
    FractionTimes(f, w);
    DivMul(rank - p, c - p);
    var r := Interpolate(a, b, p, c, rank);
    assert r == a + f * w;
    assert (r - a) / w == f;
    assert Lerp(a, b, p, c, r) == p + (c - p) * f;
  }

  lemma LerpMonotone(a: real, b: real, p: real, c: real, x: real, y: real)
    requires a < b && p <= c && x <= y
    ensures Lerp(a, b, p, c, x) <= Lerp(a, b, p, c, y)
    ensures p < c && x < y ==> Lerp(a, b, p, c, x) < Lerp(a, b, p, c, y)
  {
    FracMonotone(x - a, y - a, b - a);
    ScaleMonotone(c - p, (x - a) / (b - a), (y - a) / (b - a));
  }

  lemma LerpEnds(a: real, b: real, p: real, c: real)
    requires a < b
    ensures Lerp(a, b, p, c, a) == p && Lerp(a, b, p, c, b) == c
  {
    assert (b - a) / (b - a) == 1.0;
  }

  lemma LerpAdds(a: real, b: real, p1: real, c1: real, p2: real, c2: real, x: real)
    requires a < b
    ensures Lerp(a, b, p1 + p2, c1 + c2, x) == Lerp(a, b, p1, c1, x) + Lerp(a, b, p2, c2, x)
  {
    var f := (x - a) / (b - a);
    assert (c1 + c2 - (p1 + p2)) * f == (c1 - p1) * f + (c2 - p2) * f;
  }

  lemma {:induction false} CdfMonotone(rows: seq<Row>, prevLe: real, prevCount: real, x: real, y: real)
    requires Cumulative(rows, prevLe, prevCount) && prevLe <= x <= y
    ensures prevCount <= Cdf(rows, prevLe, prevCount, x) <= Cdf(rows, prevLe, prevCount, y)
  {
    if rows != [] && rows[0].le.Finite? {
      var b, c := rows[0].le.v, rows[0].cum;
      LerpEnds(prevLe, b, prevCount, c);
      if y <= b {
        LerpMonotone(prevLe, b, prevCount, c, prevLe, x);
        LerpMonotone(prevLe, b, prevCount, c, x, y);
      } else if x <= b {
        LerpMonotone(prevLe, b, prevCount, c, prevLe, x);
        LerpMonotone(prevLe, b, prevCount, c, x, b);
        CdfMonotone(rows[1..], b, c, b, y);
      } else {
        CdfMonotone(rows[1..], b, c, x, y);
      }
    }
  }

  /** What it means for `r` to be the answer for a rank: everything before it is below the rank, and either
      the rank is met there or the finite buckets are exhausted. */
  ghost predicate Inverts(rows: seq<Row>, prevLe: real, prevCount: real, rank: real, r: real)
    requires Cumulative(rows, prevLe, prevCount)
  {
    && prevLe <= r <= LastBound(rows, prevLe)
    && (forall x | prevLe <= x < r :: Cdf(rows, prevLe, prevCount, x) < rank)
    && (if rank <= Top(rows, prevCount) then Cdf(rows, prevLe, prevCount, r) == rank else r == LastBound(rows, prevLe))
  }

  lemma {:induction false} TopIsLargest(rows: seq<Row>, prevLe: real, prevCount: real)
    requires Cumulative(rows, prevLe, prevCount)
    ensures prevCount <= Top(rows, prevCount) && prevLe <= LastBound(rows, prevLe)
  {
    if rows != [] && rows[0].le.Finite? {
      TopIsLargest(rows[1..], rows[0].le.v, rows[0].cum);
    }
  }

  lemma {:induction false} ScanInverts(rows: seq<Row>, rank: real, prevLe: real, prevCount: real)
    requires Cumulative(rows, prevLe, prevCount) && prevCount < rank
    ensures Inverts(rows, prevLe, prevCount, rank, Scan(rows, rank, prevLe, prevCount))
  {
    if rows == [] || rows[0].le.PosInf? {
      assert rows != [] ==> Scan(rows[1..], rank, prevLe, rows[0].cum) == prevLe;
      return;
    }
    var b, c := rows[0].le.v, rows[0].cum;
    TopIsLargest(rows[1..], b, c);
    if c >= rank {
      LerpInverts(prevLe, b, prevCount, c, rank);
      var r := Scan(rows, rank, prevLe, prevCount);
      forall x | prevLe <= x < r ensures Cdf(rows, prevLe, prevCount, x) < rank {
        LerpMonotone(prevLe, b, prevCount, c, x, r);
      }
    } else {
      ScanInverts(rows[1..], rank, b, c);
      var r := Scan(rows[1..], rank, b, c);
      LerpEnds(prevLe, b, prevCount, c);
      forall x | prevLe <= x < r ensures Cdf(rows, prevLe, prevCount, x) < rank {
        if x <= b {
          LerpMonotone(prevLe, b, prevCount, c, x, b);
        }
      }
      if r == b {
        assert Top(rows[1..], c) < rank by {
          if rank <= Top(rows[1..], c) {
            CdfMonotone(rows[1..], b, c, b, b);
            CdfAtStart(rows[1..], b, c);
          }
        }
      }
    }
  }

  lemma CdfAtStart(rows: seq<Row>, prevLe: real, prevCount: real)
    requires Cumulative(rows, prevLe, prevCount)
    ensures Cdf(rows, prevLe, prevCount, prevLe) == prevCount
  {
    if rows != [] && rows[0].le.Finite? {
      LerpEnds(prevLe, rows[0].le.v, prevCount, rows[0].cum);
    }
  }

  // ---------- The same for buckets keyed by bound ----------

  /** Positive bounds, counts that never drop as the bound grows. */
  ghost predicate WellFormed(buckets: Buckets) {
    && (forall le | le in buckets :: buckets[le] >= 0.0 && (le.Finite? ==> le.v > 0.0))
    && forall a, b | a in buckets && b in buckets && Less(a, b) :: buckets[a] <= buckets[b]
  }

  /** Rows in order, counts never falling. */
  ghost predicate Rising(rows: seq<Row>) {
    && (forall i, j | 0 <= i < j < |rows| :: Less(rows[i].le, rows[j].le) && rows[i].cum <= rows[j].cum)
    && (forall i | 0 <= i < |rows| :: rows[i].cum >= 0.0 && (rows[i].le.Finite? ==> rows[i].le.v > 0.0))
  }

  lemma RowsRise(buckets: Buckets)
    requires WellFormed(buckets)
    ensures Rising(Rows(buckets))
  {
    var rows, les := Rows(buckets), Ordered(buckets.Keys);
    assert forall i, j | 0 <= i < j < |rows| :: Less(les[i], les[j]);
  }

  lemma {:induction false} SuffixIsCumulative(rows: seq<Row>, prevLe: real, prevCount: real)
    requires Rising(rows)
    requires rows != [] ==> prevCount <= rows[0].cum && (rows[0].le.Finite? ==> prevLe < rows[0].le.v)
    ensures Cumulative(rows, prevLe, prevCount)
  {
    if rows != [] {
      assert |rows| > 1 ==> Less(rows[0].le, rows[1].le);
      if rows[0].le.Finite? {
        SuffixIsCumulative(rows[1..], rows[0].le.v, rows[0].cum);
      }
    }
  }

  lemma RowsAreCumulative(buckets: Buckets)
    requires WellFormed(buckets)
    ensures Cumulative(Rows(buckets), 0.0, 0.0)
  {
    RowsRise(buckets);
    SuffixIsCumulative(Rows(buckets), 0.0, 0.0);
  }

  ghost function Distribution(buckets: Buckets, x: real): real
    requires WellFormed(buckets)
  {
    RowsAreCumulative(buckets);
    Cdf(Rows(buckets), 0.0, 0.0, x)
  }

  ghost function FiniteTop(buckets: Buckets): real { Top(Rows(buckets), 0.0) }

  ghost function LastFinite(buckets: Buckets): real { LastBound(Rows(buckets), 0.0) }

  /** The quantile is the least point at which the distribution meets the rank, if the finite buckets reach it,
      and the last finite bound otherwise. */
  lemma QuantileInvertsDistribution(q: real, buckets: Buckets, total: real)
    requires WellFormed(buckets) && q > 0.0 && total > 0.0
    ensures var r := Quantile(q, buckets, total);
            && 0.0 <= r <= LastFinite(buckets)
            && (forall x | 0.0 <= x < r :: Distribution(buckets, x) < q * total)
            && (if q * total <= FiniteTop(buckets) then Distribution(buckets, r) == q * total
                else r == LastFinite(buckets))
  {
    RowsAreCumulative(buckets);
    ScaleMonotone(total, 0.0, q);
    ScanInverts(Rows(buckets), q * total, 0.0, 0.0);
  }

  /** Where a row's bucket begins, and the count there. */
  ghost function Begin(rows: seq<Row>, i: nat, prevLe: real, prevCount: real): (real, real)
    requires i < |rows|
  {
    if i == 0 then (prevLe, prevCount) else (if rows[i - 1].le.Finite? then rows[i - 1].le.v else 0.0, rows[i - 1].cum)
  }

  lemma {:induction false} BeginsBelow(rows: seq<Row>, prevLe: real, prevCount: real, i: nat)
    requires Cumulative(rows, prevLe, prevCount) && i < |rows| && rows[i].le.Finite?
    ensures prevLe <= Begin(rows, i, prevLe, prevCount).0 < rows[i].le.v
    ensures forall j | 0 <= j < i :: rows[j].le.Finite?
  {
    if i > 0 {
      var b, c := rows[0].le.v, rows[0].cum;
      BeginsBelow(rows[1..], b, c, i - 1);
      assert Begin(rows, i, prevLe, prevCount) == Begin(rows[1..], i - 1, b, c);
      forall j | 0 <= j < i ensures rows[j].le.Finite? {
        assert j > 0 ==> rows[1..][j - 1] == rows[j];
      }
    }
  }

  /** Within a bucket the distribution is the line between its ends. */
  lemma {:induction false} CdfWithinBucket(rows: seq<Row>, prevLe: real, prevCount: real, i: nat, x: real)
    requires Cumulative(rows, prevLe, prevCount) && i < |rows| && rows[i].le.Finite?
    requires Begin(rows, i, prevLe, prevCount).0 <= x <= rows[i].le.v
    ensures var (a, c) := Begin(rows, i, prevLe, prevCount);
            a < rows[i].le.v && Cdf(rows, prevLe, prevCount, x) == Lerp(a, rows[i].le.v, c, rows[i].cum, x)
  {
    BeginsBelow(rows, prevLe, prevCount, i);
    if i > 0 {
      var b, c := rows[0].le.v, rows[0].cum;
      BeginsBelow(rows[1..], b, c, i - 1);
      assert Begin(rows, i, prevLe, prevCount) == Begin(rows[1..], i - 1, b, c);
      CdfWithinBucket(rows[1..], b, c, i - 1, x);
      LerpEnds(prevLe, b, prevCount, c);
      if x == b {
        CdfAtStart(rows[1..], b, c);
      }
    }
  }

  /** (x, y) lies on the line through (a, p) and (b, c). */
  ghost predicate OnLine(a: real, p: real, b: real, c: real, x: real, y: real) {
    (y - p) * (b - a) == (c - p) * (x - a)
  }

  lemma LerpIsStraight(a: real, b: real, p: real, c: real, x: real)
    requires a < b
    ensures OnLine(a, p, b, c, x, Lerp(a, b, p, c, x))
  {
    var f, w := (x - a) / (b - a), b - a;
    DivMul(x - a, w);
    assert (Lerp(a, b, p, c, x) - p) * w == (c - p) * f * w;
    assert (c - p) * f * w == (c - p) * (f * w);
  }

  /** Two points with no bound between them: neighbouring bounds, or zero and the least bound. */
  ghost predicate Adjacent(buckets: Buckets, a: real, b: real) {
    && a < b && Finite(b) in buckets && (a == 0.0 || Finite(a) in buckets)
    && forall le | le in buckets && le.Finite? :: le.v <= a || b <= le.v
  }

  ghost predicate Inside(row: Row, a: real, b: real) { row.le.Finite? && a < row.le.v < b }

  ghost predicate NoneInside(rows: seq<Row>, a: real, b: real) {
    forall j | 0 <= j < |rows| :: !Inside(rows[j], a, b)
  }

  lemma BeginOfRow(rows: seq<Row>, i: nat, k: nat, a: real)
    requires Rising(rows) && i < |rows| && rows[i].le.Finite? && 0.0 <= a < rows[i].le.v
    requires NoneInside(rows, a, rows[i].le.v)
    requires a == 0.0 || (k < |rows| && rows[k].le == Finite(a))
    ensures if a == 0.0 then i == 0 else i > 0 && rows[i - 1].le == Finite(a)
  {
    if a > 0.0 {
      assert k < i;
    }
    if i > 0 {
      assert Less(rows[i - 1].le, rows[i].le) && !Inside(rows[i - 1], a, rows[i].le.v);
    }
  }

  lemma RowAt(buckets: Buckets, le: Bound) returns (i: nat)
    requires le in buckets
    ensures i < |Rows(buckets)| && Rows(buckets)[i] == Row(le, buckets[le])
  {
    i :| 0 <= i < |Ordered(buckets.Keys)| && Ordered(buckets.Keys)[i] == le;
  }

  lemma NoneBetween(buckets: Buckets, a: real, b: real)
    requires Adjacent(buckets, a, b)
    ensures NoneInside(Rows(buckets), a, b)
  {
    var rows := Rows(buckets);
    forall j | 0 <= j < |rows| && rows[j].le.Finite? ensures !Inside(rows[j], a, b) {
      assert rows[j].le in buckets;
    }
  }

  /** The row of the bound `b`, whose bucket begins at `a`. */
  lemma RowOf(buckets: Buckets, a: real, b: real) returns (i: nat)
    requires WellFormed(buckets) && a >= 0.0 && Adjacent(buckets, a, b)
    ensures i < |Rows(buckets)| && Rows(buckets)[i] == Row(Finite(b), buckets[Finite(b)])
    ensures Begin(Rows(buckets), i, 0.0, 0.0) == (a, Count(buckets, Finite(a)))
  {
    var rows := Rows(buckets);
    RowsRise(buckets);
    NoneBetween(buckets, a, b);
    i := RowAt(buckets, Finite(b));
    var k: nat := 0;
    if a > 0.0 {
      k := RowAt(buckets, Finite(a));
    }
    BeginOfRow(rows, i, k, a);
    if a == 0.0 {
      assert Finite(0.0) !in buckets;
    }
  }

  lemma StraightWithinBucket(rows: seq<Row>, i: nat, a: real, b: real, p: real, c: real, x: real)
    requires Cumulative(rows, 0.0, 0.0) && i < |rows| && rows[i] == Row(Finite(b), c) && a <= x <= b
    requires Begin(rows, i, 0.0, 0.0) == (a, p)
    ensures Cdf(rows, 0.0, 0.0, a) == p && Cdf(rows, 0.0, 0.0, b) == c
    ensures OnLine(a, p, b, c, x, Cdf(rows, 0.0, 0.0, x))
  {
    CdfWithinBucket(rows, 0.0, 0.0, i, a);
    CdfWithinBucket(rows, 0.0, 0.0, i, b);
    CdfWithinBucket(rows, 0.0, 0.0, i, x);
    LerpEnds(a, b, p, c);
    LerpIsStraight(a, b, p, c, x);
  }

  /** What the distribution is: zero at zero, the count at every bound, and a straight line in between. */
  lemma DistributionInterpolates(buckets: Buckets, a: real, b: real, p: real, c: real, x: real)
    requires WellFormed(buckets) && 0.0 <= a <= x <= b && Adjacent(buckets, a, b)
    requires p == (if Finite(a) in buckets then buckets[Finite(a)] else 0.0) && c == buckets[Finite(b)]
    ensures Distribution(buckets, a) == p && Distribution(buckets, b) == c
    ensures OnLine(a, p, b, c, x, Distribution(buckets, x))
  {
    RowsAreCumulative(buckets);
    var i := RowOf(buckets, a, b);
    StraightWithinBucket(Rows(buckets), i, a, b, p, c, x);
  }

  ghost predicate IsLast(rows: seq<Row>, prevLe: real, last: real, top: real) {
    && (forall i | 0 <= i < |rows| && rows[i].le.Finite? :: rows[i].le.v <= last)
    && (last == prevLe || exists i :: 0 <= i < |rows| && rows[i] == Row(Finite(last), top))
  }

  lemma IsLastStep(rows: seq<Row>, prevLe: real, last: real, top: real)
    requires rows != [] && rows[0].le.Finite? && rows[0].le.v <= last && IsLast(rows[1..], rows[0].le.v, last, top)
    requires last == rows[0].le.v ==> top == rows[0].cum
    ensures IsLast(rows, prevLe, last, top)
  {
    assert forall i | 0 < i < |rows| :: rows[i] == rows[1..][i - 1];
    if last == rows[0].le.v {
      assert rows[0] == Row(Finite(last), top);
    } else {
      var i :| 0 <= i < |rows[1..]| && rows[1..][i] == Row(Finite(last), top);
      assert rows[i + 1] == Row(Finite(last), top);
    }
  }

  lemma {:induction false} PastLastBound(rows: seq<Row>, prevLe: real, prevCount: real, x: real)
    requires Cumulative(rows, prevLe, prevCount) && x >= LastBound(rows, prevLe)
    ensures Cdf(rows, prevLe, prevCount, x) == Top(rows, prevCount)
    ensures LastBound(rows, prevLe) == prevLe ==> Top(rows, prevCount) == prevCount
    ensures LastBound(rows, prevLe) >= prevLe && IsLast(rows, prevLe, LastBound(rows, prevLe), Top(rows, prevCount))
  {
    if rows != [] && rows[0].le.Finite? {
      var b, c := rows[0].le.v, rows[0].cum;
      TopIsLargest(rows[1..], b, c);
      PastLastBound(rows[1..], b, c, x);
      IsLastStep(rows, prevLe, LastBound(rows, prevLe), Top(rows, prevCount));
      LerpEnds(prevLe, b, prevCount, c);
    }
  }

  /** The distribution stays at the count of the greatest finite bound from there on. */
  lemma DistributionEnds(buckets: Buckets, x: real)
    requires WellFormed(buckets) && x >= LastFinite(buckets)
    ensures Distribution(buckets, x) == FiniteTop(buckets)
    ensures forall le | le in buckets && le.Finite? :: le.v <= LastFinite(buckets)
    ensures if Finite(LastFinite(buckets)) in buckets then buckets[Finite(LastFinite(buckets))] == FiniteTop(buckets)
            else LastFinite(buckets) == FiniteTop(buckets) == 0.0
  {
    RowsAreCumulative(buckets);
    PastLastBound(Rows(buckets), 0.0, 0.0, x);
    forall le | le in buckets && le.Finite? ensures le.v <= LastFinite(buckets) {
      var i := RowAt(buckets, le);
    }
    if LastFinite(buckets) == 0.0 {
      assert Finite(0.0) !in buckets;
    }
  }

  /** The reported figure, in milliseconds: there is one if something was counted, and read back in seconds it is where
      the distribution meets the rank, or the last finite bound. */
  lemma ReportedMsMeans(q: real, buckets: Buckets, total: real)
    ensures ReportedMs(q, buckets, total).Some? <==> total > 0.0 && exists le :: le in buckets
    ensures WellFormed(buckets) && q > 0.0 && ReportedMs(q, buckets, total).Some? ==>
              var seconds := ReportedMs(q, buckets, total).value / 1000.0;
              if q * total <= FiniteTop(buckets) then Distribution(buckets, seconds) == q * total
              else seconds == LastFinite(buckets)
  {
    assert buckets == map[] <==> !exists le :: le in buckets;
    if WellFormed(buckets) && q > 0.0 && total > 0.0 {
      QuantileInvertsDistribution(q, buckets, total);
      assert Quantile(q, buckets, total) * 1000.0 / 1000.0 == Quantile(q, buckets, total);
    }
  }

  lemma DistributionMonotone(buckets: Buckets, x: real, y: real)
    requires WellFormed(buckets) && 0.0 <= x <= y
    ensures 0.0 <= Distribution(buckets, x) <= Distribution(buckets, y)
  {
    RowsAreCumulative(buckets);
    CdfMonotone(Rows(buckets), 0.0, 0.0, x, y);
  }

  /** `x` is at or past the rank's point exactly when the rank is met by `x` or the last finite bound is. */
  lemma RankPointAtMost(rank: real, buckets: Buckets, x: real)
    requires WellFormed(buckets) && rank > 0.0 && x >= 0.0
    ensures RankPoint(rank, buckets) <= x <==> Distribution(buckets, x) >= rank || x >= LastFinite(buckets)
    ensures 0.0 <= RankPoint(rank, buckets)
  {
    RowsAreCumulative(buckets);
    ScanInverts(Rows(buckets), rank, 0.0, 0.0);
    var r := RankPoint(rank, buckets);
    if x >= r {
      DistributionMonotone(buckets, r, x);
    }
  }

  lemma RankZero(rows: seq<Row>, rank: real)
    requires Cumulative(rows, 0.0, 0.0) && rank > 0.0
    ensures Scan(rows, 0.0, 0.0, 0.0) <= Scan(rows, rank, 0.0, 0.0)
  {
    ScanInverts(rows, rank, 0.0, 0.0);
    if rows != [] && rows[0].le.Finite? {
      var b, c := rows[0].le.v, rows[0].cum;
      if c == 0.0 {
        TopIsLargest(rows[1..], b, c);
        ScanInverts(rows[1..], rank, b, c);
      } else {
        assert Interpolate(0.0, b, 0.0, c, 0.0) == 0.0;
      }
    }
  }

  lemma RankPointMonotone(r1: real, r2: real, buckets: Buckets)
    requires WellFormed(buckets) && 0.0 <= r1 <= r2
    ensures RankPoint(r1, buckets) <= RankPoint(r2, buckets)
  {
    if r1 > 0.0 {
      var x := RankPoint(r2, buckets);
      RankPointAtMost(r2, buckets, 0.0);
      RankPointAtMost(r2, buckets, x);
      RankPointAtMost(r1, buckets, x);
    } else if r2 > 0.0 {
      RowsAreCumulative(buckets);
      RankZero(Rows(buckets), r2);
    }
  }

  lemma QuantileMonotone(q1: real, q2: real, buckets: Buckets, total: real)
    requires WellFormed(buckets) && 0.0 <= q1 <= q2 && total > 0.0
    ensures Quantile(q1, buckets, total) <= Quantile(q2, buckets, total)
  {
    RankMonotone(0.0, q1, total);
    RankMonotone(q1, q2, total);
    RankPointMonotone(Rank(q1, total), Rank(q2, total), buckets);
  }

  lemma RankMonotone(q1: real, q2: real, total: real)
    requires 0.0 <= q1 <= q2 && total > 0.0
    ensures 0.0 <= Rank(q1, total) <= Rank(q2, total)
  {
    ScaleMonotone(total, 0.0, q1);
    ScaleMonotone(total, q1, q2);
  }

  // ---------- Merging ----------

  ghost function Count(buckets: Buckets, le: Bound): real {
    if le in buckets then buckets[le] else 0.0
  }

  ghost function Merge(a: Buckets, b: Buckets): Buckets {
    map le | le in a.Keys + b.Keys :: Count(a, le) + Count(b, le)
  }

  /** The plain counters of a scrape. */
  datatype Counters = Counters(e2eSum: real, ttftSum: real, genTokens: real, promptToks: real,
                               success: real, errors: real, running: real, waiting: real)

  /** One replica's scrape. */
  datatype Pod = Pod(name: string, e2eBuckets: Buckets, e2eCount: real, ttftBuckets: Buckets, ttftCount: real,
                     counters: Counters)

  method AddBuckets(into: Buckets, buckets: Buckets) returns (r: Buckets)
    ensures r == Merge(into, buckets)
  {
    r := into;
    var pending := buckets.Keys;
    while pending != {}
      invariant pending <= buckets.Keys
      invariant r.Keys == into.Keys + (buckets.Keys - pending)
      invariant forall le | le in r :: r[le] == Count(into, le) + (if le in pending then 0.0 else Count(buckets, le))
      decreases pending
    {
      var le :| le in pending;
      r := r[le := (if le in r then r[le] else 0.0) + buckets[le]];
      pending := pending - {le};
    }
  }

  /** One histogram with its total, as reported by one replica. */
  datatype Histo = Histo(buckets: Buckets, total: real)

  /** What a fresh aggregate holds after every replica has been added. */
  ghost function MergeAll(hs: seq<Histo>): Histo {
    if hs == [] then Histo(map[], 0.0)
    else
      var m := MergeAll(hs[..|hs| - 1]);
      var h := hs[|hs| - 1];
      Histo(Merge(m.buckets, h.buckets), m.total + h.total)
  }

  function Summed(a: Counters, b: Counters): Counters {
    Counters(a.e2eSum + b.e2eSum, a.ttftSum + b.ttftSum, a.genTokens + b.genTokens, a.promptToks + b.promptToks,
             a.success + b.success, a.errors + b.errors, a.running + b.running, a.waiting + b.waiting)
  }

  /** One of the plain counters. */
  datatype Field = E2eSum | TtftSum | GenTokens | PromptToks | Success | Errors | Running | Waiting

  ghost function ValueOf(c: Counters, f: Field): real {
    match f
    case E2eSum => c.e2eSum
    case TtftSum => c.ttftSum
    case GenTokens => c.genTokens
    case PromptToks => c.promptToks
    case Success => c.success
    case Errors => c.errors
    case Running => c.running
    case Waiting => c.waiting
  }

  ghost function SumOverPods(pods: seq<Pod>, f: Field): real {
    if pods == [] then 0.0 else SumOverPods(pods[..|pods| - 1], f) + ValueOf(pods[|pods| - 1].counters, f)
  }

  /** Each counter is the sum of that counter over the replicas. */
  ghost predicate AddUp(c: Counters, pods: seq<Pod>) { forall f :: ValueOf(c, f) == SumOverPods(pods, f) }

  lemma OneMoreAddsUp(c: Counters, pods: seq<Pod>, p: Pod)
    requires AddUp(c, pods)
    ensures AddUp(Summed(c, p.counters), pods + [p])
  {
    assert (pods + [p])[..|pods|] == pods;
  }

  ghost function E2e(pods: seq<Pod>): seq<Histo> {
    seq(|pods|, i requires 0 <= i < |pods| => Histo(pods[i].e2eBuckets, pods[i].e2eCount))
  }

  ghost function Ttft(pods: seq<Pod>): seq<Histo> {
    seq(|pods|, i requires 0 <= i < |pods| => Histo(pods[i].ttftBuckets, pods[i].ttftCount))
  }

  const ZERO := Counters(0.0, 0.0, 0.0, 0.0, 0.0, 0.0, 0.0, 0.0)

  class Aggregate {
    var pods: seq<Pod>
    var e2eBuckets: Buckets
    var e2eCount: real
    var ttftBuckets: Buckets
    var ttftCount: real
    var counters: Counters

    /** Both histograms are what merging all added replicas' gives, and the counters add up. */
    ghost predicate Valid()
      reads this
    {
      && Histo(e2eBuckets, e2eCount) == MergeAll(E2e(pods)) && Histo(ttftBuckets, ttftCount) == MergeAll(Ttft(pods))
      && AddUp(counters, pods)
    }

    constructor ()
      ensures Valid() && pods == [] && counters == ZERO
    {
      pods, counters := [], ZERO;
      e2eBuckets, e2eCount := map[], 0.0;
      ttftBuckets, ttftCount := map[], 0.0;
    }

    method Add(p: Pod)
      requires Valid()
      modifies this
      ensures Valid() && pods == old(pods) + [p]
      ensures counters == Summed(old(counters), p.counters)
    {
      ghost var e2e, ttft := Histo(e2eBuckets, e2eCount), Histo(ttftBuckets, ttftCount);
      OneMorePod(pods, p, e2e, ttft);
      OneMoreAddsUp(counters, pods, p);
      pods := pods + [p];
      e2eBuckets := AddBuckets(e2eBuckets, p.e2eBuckets);
      ttftBuckets := AddBuckets(ttftBuckets, p.ttftBuckets);
      e2eCount := e2eCount + p.e2eCount;
      ttftCount := ttftCount + p.ttftCount;
      counters := Summed(counters, p.counters);
    }

    /** The latency quantile reported for all replicas together. */
    method LatencyMs(q: real) returns (r: Option<real>)
      requires Valid()
      ensures r == ReportedMs(q, MergeAll(E2e(pods)).buckets, MergeAll(E2e(pods)).total)
    {
      r := QuantileMs(q, e2eBuckets, e2eCount);
    }
  }

  /** What the replicas report of a bound, all together; one that does not have it reports nothing. */
  ghost function CountOver(hs: seq<Histo>, le: Bound): real {
    if hs == [] then 0.0
    else
      var h := hs[|hs| - 1];
      CountOver(hs[..|hs| - 1], le) + (if le in h.buckets then h.buckets[le] else 0.0)
  }

  ghost function TotalOver(hs: seq<Histo>): real {
    if hs == [] then 0.0 else TotalOver(hs[..|hs| - 1]) + hs[|hs| - 1].total
  }

  /** What merging gives: every bound of any replica, each with the sum of the counts. */
  lemma {:induction false} MergeAllAddsUp(hs: seq<Histo>, le: Bound)
    ensures le in MergeAll(hs).buckets <==> exists i :: 0 <= i < |hs| && le in hs[i].buckets
    ensures le in MergeAll(hs).buckets ==> MergeAll(hs).buckets[le] == CountOver(hs, le)
    ensures le !in MergeAll(hs).buckets ==> CountOver(hs, le) == 0.0
    ensures MergeAll(hs).total == TotalOver(hs)
  {
    if hs != [] {
      var n := |hs| - 1;
      MergeAllAddsUp(hs[..n], le);
      assert forall i | 0 <= i < n :: hs[..n][i] == hs[i];
    }
  }

  ghost function MergeOne(m: Histo, h: Histo): Histo { Histo(Merge(m.buckets, h.buckets), m.total + h.total) }

  lemma OneMoreHisto(hs: seq<Histo>, more: seq<Histo>, h: Histo, m: Histo)
    requires more == hs + [h] && m == MergeAll(hs)
    ensures MergeAll(more) == Histo(Merge(m.buckets, h.buckets), m.total + h.total)
  {
    assert more[..|hs|] == hs;
  }

  lemma OneMorePod(pods: seq<Pod>, p: Pod, e2e: Histo, ttft: Histo)
    requires e2e == MergeAll(E2e(pods)) && ttft == MergeAll(Ttft(pods))
    ensures MergeAll(E2e(pods + [p])) == Histo(Merge(e2e.buckets, p.e2eBuckets), e2e.total + p.e2eCount)
    ensures MergeAll(Ttft(pods + [p])) == Histo(Merge(ttft.buckets, p.ttftBuckets), ttft.total + p.ttftCount)
  {
    OneMoreHisto(E2e(pods), E2e(pods + [p]), Histo(p.e2eBuckets, p.e2eCount), e2e);
    OneMoreHisto(Ttft(pods), Ttft(pods + [p]), Histo(p.ttftBuckets, p.ttftCount), ttft);
  }

  /** A replica's histogram over the shared bounds; an idle one has counted nothing. */
  ghost predicate Reports(h: Histo, keys: set<Bound>) {
    && h.buckets.Keys == keys && WellFormed(h.buckets) && h.total >= 0.0
    && (h.total == 0.0 ==> forall le | le in h.buckets :: h.buckets[le] == 0.0)
  }

  ghost predicate AllReport(hs: seq<Histo>, keys: set<Bound>) {
    forall i | 0 <= i < |hs| :: Reports(hs[i], keys)
  }

  /** The same bounds, the counts added. */
  ghost predicate RowsAdd(m: seq<Row>, a: seq<Row>, b: seq<Row>) {
    && |m| == |a| == |b|
    && forall i | 0 <= i < |m| :: m[i].le == a[i].le == b[i].le && m[i].cum == a[i].cum + b[i].cum
  }

  lemma {:induction false} CdfAdds(m: seq<Row>, a: seq<Row>, b: seq<Row>, prevLe: real, p1: real, p2: real, x: real)
    requires RowsAdd(m, a, b)
    requires Cumulative(a, prevLe, p1) && Cumulative(b, prevLe, p2) && Cumulative(m, prevLe, p1 + p2)
    ensures Cdf(m, prevLe, p1 + p2, x) == Cdf(a, prevLe, p1, x) + Cdf(b, prevLe, p2, x)
  {
    if m != [] && m[0].le.Finite? {
      if x <= m[0].le.v {
        LerpAdds(prevLe, m[0].le.v, p1, a[0].cum, p2, b[0].cum, x);
      } else {
        CdfAdds(m[1..], a[1..], b[1..], m[0].le.v, a[0].cum, b[0].cum, x);
      }
    }
  }

  lemma {:induction false} BoundsDecideLast(a: seq<Row>, b: seq<Row>, prevLe: real)
    requires |a| == |b| && forall i | 0 <= i < |a| :: a[i].le == b[i].le
    ensures LastBound(a, prevLe) == LastBound(b, prevLe)
  {
    if a != [] && a[0].le.Finite? {
      BoundsDecideLast(a[1..], b[1..], a[0].le.v);
    }
  }

  lemma MergeKeepsShape(a: Buckets, b: Buckets)
    requires a.Keys == b.Keys && WellFormed(a) && WellFormed(b)
    ensures WellFormed(Merge(a, b)) && Merge(a, b).Keys == a.Keys
    ensures LastFinite(Merge(a, b)) == LastFinite(a) == LastFinite(b)
  {
    var m := Merge(a, b);
    assert m.Keys == a.Keys;
    assert forall le | le in m :: m[le] == a[le] + b[le];
    BoundsDecideLast(Rows(m), Rows(a), 0.0);
    BoundsDecideLast(Rows(m), Rows(b), 0.0);
  }

  lemma RowsOfMerge(a: Buckets, b: Buckets)
    requires a.Keys == b.Keys
    ensures RowsAdd(Rows(Merge(a, b)), Rows(a), Rows(b))
  {
    var m := Merge(a, b);
    assert m.Keys == a.Keys;
    assert forall le | le in m :: m[le] == a[le] + b[le];
  }

  lemma CdfAddsFromZero(m: seq<Row>, a: seq<Row>, b: seq<Row>, x: real)
    requires RowsAdd(m, a, b) && Cumulative(a, 0.0, 0.0) && Cumulative(b, 0.0, 0.0) && Cumulative(m, 0.0, 0.0)
    ensures Cdf(m, 0.0, 0.0, x) == Cdf(a, 0.0, 0.0, x) + Cdf(b, 0.0, 0.0, x)
  {
    CdfAdds(m, a, b, 0.0, 0.0, 0.0, x);
  }

  lemma DistributionAdds(a: Buckets, b: Buckets, x: real)
    requires a.Keys == b.Keys && WellFormed(a) && WellFormed(b) && WellFormed(Merge(a, b))
    ensures Distribution(Merge(a, b), x) == Distribution(a, x) + Distribution(b, x)
  {
    var m := Rows(Merge(a, b));
    RowsOfMerge(a, b);
    RowsAreCumulative(a);
    RowsAreCumulative(b);
    RowsAreCumulative(Merge(a, b));
    CdfAddsFromZero(m, Rows(a), Rows(b), x);
  }

  lemma MergeWithIdle(idle: Buckets, b: Buckets)
    requires idle.Keys <= b.Keys && forall le | le in idle :: idle[le] == 0.0
    ensures Merge(idle, b) == b && Merge(b, idle) == b
  {
  }

  /** Where a point lies relative to two replicas' ranks decides where it lies relative to the merged one. */
  lemma MergeBetween(a: Buckets, ra: real, b: Buckets, rb: real, x: real)
    requires a.Keys == b.Keys && WellFormed(a) && WellFormed(b) && ra > 0.0 && rb > 0.0 && x >= 0.0
    ensures RankPoint(ra, a) <= x && RankPoint(rb, b) <= x ==> RankPoint(ra + rb, Merge(a, b)) <= x
    ensures x < RankPoint(ra, a) && x < RankPoint(rb, b) ==> x < RankPoint(ra + rb, Merge(a, b))
  {
    MergeKeepsShape(a, b);
    DistributionAdds(a, b, x);
    RankPointAtMost(ra, a, x);
    RankPointAtMost(rb, b, x);
    RankPointAtMost(ra + rb, Merge(a, b), x);
  }

  /** `total`, read as a rank, is placed in the range if it is positive. */
  ghost predicate Placed(total: real, buckets: Buckets, lo: real, hi: real) {
    total > 0.0 ==> lo <= RankPoint(total, buckets) <= hi
  }

  lemma PairwiseMerge(a: Buckets, ra: real, b: Buckets, rb: real, lo: real, hi: real)
    requires a.Keys == b.Keys && WellFormed(a) && WellFormed(b) && ra > 0.0 && rb > 0.0
    requires Placed(ra, a, lo, hi) && Placed(rb, b, lo, hi)
    ensures Placed(ra + rb, Merge(a, b), lo, hi)
  {
    MergeKeepsShape(a, b);
    RankPointAtMost(ra, a, 0.0);
    RankPointAtMost(ra + rb, Merge(a, b), 0.0);
    MergeBetween(a, ra, b, rb, hi);
    MergeBetween(a, ra, b, rb, RankPoint(ra + rb, Merge(a, b)));
  }

  lemma {:induction false} MergeAllReports(hs: seq<Histo>, keys: set<Bound>)
    requires AllReport(hs, keys) && hs != []
    ensures Reports(MergeAll(hs), keys)
    ensures MergeAll(hs).total > 0.0 <==> exists i :: 0 <= i < |hs| && hs[i].total > 0.0
  {
    var n := |hs| - 1;
    var init, h := hs[..n], hs[n];
    if n == 0 {
      MergeWithIdle(map[], h.buckets);
    } else {
      MergeAllReports(init, keys);
      MergeKeepsShape(MergeAll(init).buckets, h.buckets);
      assert forall i | 0 <= i < n :: init[i] == hs[i];
    }
  }

  ghost predicate HistoPlaced(h: Histo, lo: real, hi: real) { Placed(h.total, h.buckets, lo, hi) }

  lemma IdleMerge(idle: Histo, h: Histo, keys: set<Bound>, lo: real, hi: real)
    requires Reports(idle, keys) && Reports(h, keys) && idle.total == 0.0 && HistoPlaced(h, lo, hi)
    ensures Placed(idle.total + h.total, Merge(idle.buckets, h.buckets), lo, hi)
    ensures Placed(h.total + idle.total, Merge(h.buckets, idle.buckets), lo, hi)
  {
    MergeWithIdle(idle.buckets, h.buckets);
    assert idle.total + h.total == h.total && h.total + idle.total == h.total;
  }

  lemma BusyMerge(m: Histo, h: Histo, keys: set<Bound>, lo: real, hi: real)
    requires Reports(m, keys) && Reports(h, keys) && HistoPlaced(m, lo, hi) && HistoPlaced(h, lo, hi)
    requires m.total > 0.0 && h.total > 0.0
    ensures Placed(m.total + h.total, Merge(m.buckets, h.buckets), lo, hi)
  {
    PairwiseMerge(m.buckets, m.total, h.buckets, h.total, lo, hi);
  }

  lemma MergeStep(m: Histo, h: Histo, merged: Histo, keys: set<Bound>, lo: real, hi: real)
    requires Reports(m, keys) && Reports(h, keys) && HistoPlaced(m, lo, hi) && HistoPlaced(h, lo, hi)
    requires merged == Histo(Merge(m.buckets, h.buckets), m.total + h.total)
    ensures HistoPlaced(merged, lo, hi)
  {
    if m.total == 0.0 {
      IdleMerge(m, h, keys, lo, hi);
    } else if h.total == 0.0 {
      IdleMerge(h, m, keys, lo, hi);
    } else {
      BusyMerge(m, h, keys, lo, hi);
    }
  }

  lemma {:induction false} MergedRankStaysWithin(hs: seq<Histo>, keys: set<Bound>, lo: real, hi: real)
    requires AllReport(hs, keys)
    requires forall i | 0 <= i < |hs| :: HistoPlaced(hs[i], lo, hi)
    ensures HistoPlaced(MergeAll(hs), lo, hi)
  {
    if |hs| == 1 {
      MergeWithIdle(map[], hs[0].buckets);
      assert MergeAll(hs[..0]) == Histo(map[], 0.0);
      assert MergeAll(hs) == hs[0];
    } else if hs != [] {
      var n := |hs| - 1;
      assert forall i | 0 <= i < n :: hs[..n][i] == hs[i];
      MergeAllReports(hs[..n], keys);
      MergedRankStaysWithin(hs[..n], keys, lo, hi);
      MergeStep(MergeAll(hs[..n]), hs[n], MergeAll(hs), keys, lo, hi);
    }
  }

  ghost function Ranked(q: real, h: Histo): Histo { Histo(h.buckets, Rank(q, h.total)) }

  ghost function RankedAll(q: real, hs: seq<Histo>): seq<Histo> {
    seq(|hs|, i requires 0 <= i < |hs| => Ranked(q, hs[i]))
  }

  lemma {:induction false} RankingCommutes(q: real, hs: seq<Histo>)
    ensures MergeAll(RankedAll(q, hs)) == Ranked(q, MergeAll(hs))
  {
    if hs != [] {
      var n := |hs| - 1;
      RankingCommutes(q, hs[..n]);
      assert RankedAll(q, hs)[..n] == RankedAll(q, hs[..n]);
      var a, b := MergeAll(hs[..n]).total, hs[n].total;
      assert Rank(q, a + b) == Rank(q, a) + Rank(q, b);
    }
  }

  /** The replica `h`, if it reports a quantile at all, reports one in the range. */
  ghost predicate ReportsWithin(q: real, h: Histo, lo: real, hi: real) {
    var m := ReportedMs(q, h.buckets, h.total);
    m.Some? ==> lo <= m.value <= hi
  }
}
