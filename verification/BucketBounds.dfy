/** Which replicas' histograms may be merged: what their bucket bounds have to do with the merged quantile. */
module BucketBounds {
  import opened Common
  import opened Histogram
  import opened Reals

  // ---------- Only the finite bounds matter ----------

  ghost function FiniteKeys(keys: set<Bound>): set<Bound> { set le | le in keys && le.Finite? }

  ghost function Finites(buckets: Buckets): Buckets { map le | le in buckets && le.Finite? :: buckets[le] }

  lemma {:induction false} ScanIgnoresInf(rows: seq<Row>, inf: Row, rank: real, prevLe: real, prevCount: real)
    requires inf.le.PosInf?
    ensures Scan(rows + [inf], rank, prevLe, prevCount) == Scan(rows, rank, prevLe, prevCount)
  {
    if rows == [] {
      assert ([inf])[1..] == [] && rows + [inf] == [inf];
    } else {
      assert (rows + [inf])[1..] == rows[1..] + [inf];
      ScanIgnoresInf(rows[1..], inf, rank, if rows[0].le.PosInf? then prevLe else rows[0].le.v, rows[0].cum);
    }
  }

  lemma RowsWithInf(buckets: Buckets)
    requires PosInf in buckets
    ensures Rows(buckets) == Rows(Finites(buckets)) + [Row(PosInf, buckets[PosInf])]
  {
    var les := Ordered(Finites(buckets).Keys);
    assert forall i | 0 <= i < |les| :: les[i] in Finites(buckets);
    ListingIsUnique(les + [PosInf], Ordered(buckets.Keys), buckets.Keys);
  }

  /** An infinite bucket never moves the answer. */
  lemma RankPointOfFinites(rank: real, buckets: Buckets)
    ensures RankPoint(rank, Finites(buckets)) == RankPoint(rank, buckets)
  {
    if PosInf in buckets {
      RowsWithInf(buckets);
      ScanIgnoresInf(Rows(Finites(buckets)), Row(PosInf, buckets[PosInf]), rank, 0.0, 0.0);
    } else {
      assert Finites(buckets) == buckets;
    }
  }

  ghost function FiniteHisto(h: Histo): Histo { Histo(Finites(h.buckets), h.total) }

  ghost function FiniteAll(hs: seq<Histo>): seq<Histo> {
    seq(|hs|, i requires 0 <= i < |hs| => FiniteHisto(hs[i]))
  }

  lemma MergeOfFinites(a: Buckets, b: Buckets)
    ensures Merge(Finites(a), Finites(b)) == Finites(Merge(a, b))
  {
  }

  lemma {:induction false} MergeAllOfFinites(hs: seq<Histo>)
    ensures MergeAll(FiniteAll(hs)) == FiniteHisto(MergeAll(hs))
  {
    if hs == [] {
      assert Finites(map[]) == map[];
    } else {
      var n := |hs| - 1;
      MergeAllOfFinites(hs[..n]);
      assert FiniteAll(hs)[..n] == FiniteAll(hs[..n]);
      MergeOfFinites(MergeAll(hs[..n]).buckets, hs[n].buckets);
    }
  }

  /** A replica's histogram whose finite bounds are the shared ones; an infinite bucket is its own affair. */
  ghost predicate FitsIn(h: Histo, keys: set<Bound>) {
    && FiniteKeys(h.buckets.Keys) == keys && h.buckets != map[] && WellFormed(h.buckets) && h.total >= 0.0
    && (h.total == 0.0 ==> forall le | le in h.buckets :: h.buckets[le] == 0.0)
  }

  lemma ReportsIffPlaced(q: real, h: Histo, lo: real, hi: real)
    requires h.buckets != map[] && q > 0.0
    ensures ReportsWithin(q, h, lo, hi) <==> HistoPlaced(Ranked(q, FiniteHisto(h)), lo / 1000.0, hi / 1000.0)
  {
    RankPointOfFinites(Rank(q, h.total), h.buckets);
    RankSign(q, h.total);
  }

  lemma RankSign(q: real, total: real)
    requires q > 0.0
    ensures Rank(q, total) > 0.0 <==> total > 0.0
    ensures Rank(q, total) == 0.0 <==> total == 0.0
  {
    ProductSign(total, q);
  }

  lemma FitsIsReported(q: real, h: Histo, keys: set<Bound>)
    requires FitsIn(h, keys) && q > 0.0
    ensures Reports(Ranked(q, FiniteHisto(h)), keys)
  {
    RankSign(q, h.total);
    assert Finites(h.buckets).Keys == keys;
  }

  lemma ReportIsPlaced(q: real, h: Histo, keys: set<Bound>, lo: real, hi: real)
    requires q > 0.0 && FitsIn(h, keys) && ReportsWithin(q, h, lo, hi)
    ensures var r := Ranked(q, FiniteHisto(h)); Reports(r, keys) && HistoPlaced(r, lo / 1000.0, hi / 1000.0)
  {
    ReportsIffPlaced(q, h, lo, hi);
    FitsIsReported(q, h, keys);
  }

  lemma PlacedIsReport(q: real, h: Histo, lo: real, hi: real)
    requires q > 0.0 && HistoPlaced(Ranked(q, FiniteHisto(h)), lo / 1000.0, hi / 1000.0)
    ensures ReportsWithin(q, h, lo, hi)
  {
    if h.buckets != map[] {
      ReportsIffPlaced(q, h, lo, hi);
    }
  }

  /** The quantile of all replicas together, if reported, lies in the range. */
  ghost predicate MergedWithin(q: real, hs: seq<Histo>, lo: real, hi: real) {
    ReportsWithin(q, MergeAll(hs), lo, hi)
  }

  lemma FittingStayWithin(q: real, hs: seq<Histo>, keys: set<Bound>, lo: real, hi: real)
    requires q > 0.0 && forall i | 0 <= i < |hs| :: FitsIn(hs[i], keys)
    requires forall i | 0 <= i < |hs| :: ReportsWithin(q, hs[i], lo, hi)
    ensures MergedWithin(q, hs, lo, hi)
  {
    var finite := FiniteAll(hs);
    var ranked := RankedAll(q, finite);
    forall i | 0 <= i < |hs|
      ensures Reports(ranked[i], keys) && HistoPlaced(ranked[i], lo / 1000.0, hi / 1000.0)
    {
      ReportIsPlaced(q, hs[i], keys, lo, hi);
    }
    MergedRankStaysWithin(ranked, keys, lo / 1000.0, hi / 1000.0);
    RankingCommutes(q, finite);
    MergeAllOfFinites(hs);
    PlacedIsReport(q, MergeAll(hs), lo, hi);
  }

  /** A replica that exports no buckets and has counted nothing. */
  ghost predicate Bare(h: Histo) { h.buckets == map[] && h.total == 0.0 }

  ghost function WithBuckets(hs: seq<Histo>): seq<Histo> {
    if hs == [] then []
    else WithBuckets(hs[..|hs| - 1]) + if Bare(hs[|hs| - 1]) then [] else [hs[|hs| - 1]]
  }

  lemma {:induction false} WithBucketsPicks(hs: seq<Histo>, i: nat) returns (j: nat)
    requires i < |WithBuckets(hs)|
    ensures j < |hs| && WithBuckets(hs)[i] == hs[j] && !Bare(hs[j])
  {
    var n := |hs| - 1;
    if i < |WithBuckets(hs[..n])| {
      j := WithBucketsPicks(hs[..n], i);
    } else {
      j := n;
    }
  }

  lemma MergeNothing(m: Buckets)
    ensures Merge(m, map[]) == m
  {
  }

  lemma {:induction false} BareChangesNothing(hs: seq<Histo>)
    ensures MergeAll(WithBuckets(hs)) == MergeAll(hs)
  {
    if hs != [] {
      var n := |hs| - 1;
      var init := WithBuckets(hs[..n]);
      BareChangesNothing(hs[..n]);
      if Bare(hs[n]) {
        assert WithBuckets(hs) == init + [] == init;
        MergeNothing(MergeAll(hs[..n]).buckets);
      } else {
        OneMoreHisto(init, WithBuckets(hs), hs[n], MergeAll(init));
      }
    }
  }

  /** The merged quantile never escapes the replicas': when the finite bounds of all that export any agree, whatever
      range holds the quantile of every replica that reports one holds the merged one. */
  lemma MergedQuantileStaysWithin(q: real, hs: seq<Histo>, keys: set<Bound>, lo: real, hi: real)
    requires q > 0.0 && forall i | 0 <= i < |hs| :: Bare(hs[i]) || FitsIn(hs[i], keys)
    requires forall i | 0 <= i < |hs| :: ReportsWithin(q, hs[i], lo, hi)
    ensures MergedWithin(q, hs, lo, hi)
  {
    var some := WithBuckets(hs);
    forall i | 0 <= i < |some| ensures FitsIn(some[i], keys) && ReportsWithin(q, some[i], lo, hi) {
      var j := WithBucketsPicks(hs, i);
    }
    FittingStayWithin(q, some, keys, lo, hi);
    BareChangesNothing(hs);
  }

  lemma {:induction false} MergeAllCounts(hs: seq<Histo>)
    requires forall i | 0 <= i < |hs| :: hs[i].total >= 0.0 && (hs[i].buckets == map[] ==> hs[i].total == 0.0)
    ensures MergeAll(hs).total >= 0.0 && (MergeAll(hs).buckets == map[] ==> MergeAll(hs).total == 0.0)
    ensures MergeAll(hs).total > 0.0 <==> exists i :: 0 <= i < |hs| && hs[i].total > 0.0
  {
    if hs != [] {
      var n := |hs| - 1;
      MergeAllCounts(hs[..n]);
      assert forall i | 0 <= i < n :: hs[..n][i] == hs[i];
      MergedKeys(MergeAll(hs[..n]).buckets, hs[n].buckets);
    }
  }

  lemma MergedKeys(a: Buckets, b: Buckets)
    ensures Merge(a, b) == map[] ==> a == map[] && b == map[]
  {
    if a != map[] {
      var le :| le in a;
      assert le in Merge(a, b);
    }
    if b != map[] {
      var le :| le in b;
      assert le in Merge(a, b);
    }
  }

  ghost predicate IsReported(q: real, h: Histo) { ReportedMs(q, h.buckets, h.total).Some? }

  ghost predicate MergedIsReported(q: real, hs: seq<Histo>) { IsReported(q, MergeAll(hs)) }

  /** And it is reported as soon as one replica's is, whatever the bounds. */
  lemma MergedQuantileIsReportedIff(q: real, hs: seq<Histo>)
    requires forall i | 0 <= i < |hs| :: hs[i].total >= 0.0 && (hs[i].buckets == map[] ==> hs[i].total == 0.0)
    ensures MergedIsReported(q, hs) <==> exists i :: 0 <= i < |hs| && IsReported(q, hs[i])
  {
    MergeAllCounts(hs);
    assert forall i | 0 <= i < |hs| :: IsReported(q, hs[i]) <==> hs[i].total > 0.0;
  }

  // ---------- Exactly which bounds may be merged ----------

  ghost predicate PositiveBounds(keys: set<Bound>) { forall le | le in keys && le.Finite? :: le.v > 0.0 }

  /** A scrape as a replica can produce it: counts within the total, all of it below infinity. */
  ghost predicate Genuine(h: Histo, keys: set<Bound>) {
    && h.buckets.Keys == keys && WellFormed(h.buckets) && h.total > 0.0
    && (forall le | le in h.buckets :: h.buckets[le] <= h.total)
    && (PosInf in h.buckets ==> h.buckets[PosInf] == h.total)
  }

  /** The pair's merged quantile lies in every range that holds the quantiles the two report. */
  ghost predicate MergesWithin(q: real, a: Histo, b: Histo) {
    forall lo, hi | ReportsWithin(q, a, lo, hi) && ReportsWithin(q, b, lo, hi) ::
      ReportsWithin(q, MergeOne(a, b), lo, hi)
  }

  /** The last bound of `keys` before `x`, or zero. */
  ghost predicate LastBefore(p: real, keys: set<Bound>, x: real) {
    && 0.0 <= p < x && (p == 0.0 || Finite(p) in keys)
    && forall le | le in keys && le.Finite? && le.v < x :: le.v <= p
  }

  /** The first bound of `keys` from `x` on, if there is one. */
  ghost predicate FirstFrom(next: Option<real>, keys: set<Bound>, x: real) {
    match next
    case None => forall le | le in keys && le.Finite? :: le.v < x
    case Some(y) => Finite(y) in keys && x <= y && forall le | le in keys && le.Finite? && x <= le.v :: y <= le.v
  }

  // ---------- Where a rank is placed ----------

  /** Rows that do not reach the rank are passed over. */
  lemma {:induction false} ScanSkips(rows: seq<Row>, k: nat, rank: real, prevLe: real, prevCount: real)
    requires k <= |rows| && forall i | 0 <= i < k :: rows[i].le.Finite? && rows[i].cum < rank
    ensures Scan(rows, rank, prevLe, prevCount)
         == Scan(rows[k..], rank, if k == 0 then prevLe else rows[k - 1].le.v,
                 if k == 0 then prevCount else rows[k - 1].cum)
  {
    if k == 0 {
      assert rows[0..] == rows;
    } else {
      ScanSkips(rows[1..], k - 1, rank, rows[0].le.v, rows[0].cum);
      assert rows[1..][k - 1..] == rows[k..];
      assert k > 1 ==> rows[1..][k - 2] == rows[k - 1];
    }
  }

  lemma RowOf(buckets: Buckets, le: Bound) returns (i: nat)
    requires le in buckets
    ensures i < |Rows(buckets)| && Rows(buckets)[i] == Row(le, buckets[le])
    ensures forall j | 0 <= j < |Rows(buckets)| :: Rows(buckets)[j].le in buckets
    ensures forall j | 0 <= j < i :: Less(Rows(buckets)[j].le, le)
    ensures forall j | i < j < |Rows(buckets)| :: Less(le, Rows(buckets)[j].le)
  {
    var les := Ordered(buckets.Keys);
    assert le in les;
    i :| 0 <= i < |les| && les[i] == le;
  }

  lemma ScanStops(rows: seq<Row>, i: nat, rank: real)
    requires i < |rows| && rows[i].le.Finite? && rows[i].cum >= rank > 0.0
    requires forall j | 0 <= j < i :: rows[j].le.Finite? && rows[j].cum < rank
    ensures var z, c := if i == 0 then 0.0 else rows[i - 1].le.v, if i == 0 then 0.0 else rows[i - 1].cum;
            c < rank && Scan(rows, rank, 0.0, 0.0) == Interpolate(z, rows[i].le.v, c, rows[i].cum, rank)
  {
    ScanSkips(rows, i, rank, 0.0, 0.0);
    assert rows[i..][0] == rows[i];
  }

  /** The count at the bound `z`, and nothing at zero. */
  ghost function CountAt(buckets: Buckets, z: real): real { Count(buckets, Finite(z)) }

  lemma RowsInOrder(buckets: Buckets, j: nat, i: nat)
    requires j < |Rows(buckets)| && i < |Rows(buckets)| && Less(Rows(buckets)[j].le, Rows(buckets)[i].le)
    ensures j < i
  {
    var les := Ordered(buckets.Keys);
    assert i < j ==> Less(les[i], les[j]);
  }

  /** The bound of the row before `i` is the last one before the bound of row `i`. */
  lemma RowBefore(buckets: Buckets, i: nat, y: real) returns (z: real)
    requires PositiveBounds(buckets.Keys) && i < |Rows(buckets)| && Rows(buckets)[i].le == Finite(y)
    requires i > 0 ==> Less(Rows(buckets)[i - 1].le, Finite(y))
    ensures z == if i == 0 then 0.0 else Rows(buckets)[i - 1].le.v
    ensures LastBefore(z, buckets.Keys, y) && CountAt(buckets, z) == if i == 0 then 0.0 else Rows(buckets)[i - 1].cum
  {
    var rows := Rows(buckets);
    z := if i == 0 then 0.0 else rows[i - 1].le.v;
    assert rows[i].le in buckets.Keys && (i > 0 ==> rows[i - 1].le in buckets.Keys);
    forall le | le in buckets && Less(le, Finite(y)) ensures i > 0 && le.v <= z {
      var j := RowOf(buckets, le);
      RowsInOrder(buckets, j, i);
    }
  }

  /** The first bound that reaches the rank takes it, on the line from the bound before. */
  lemma PlaceAt(buckets: Buckets, rank: real, y: real) returns (z: real)
    requires PositiveBounds(buckets.Keys) && Finite(y) in buckets && buckets[Finite(y)] >= rank > 0.0
    requires forall le | le in buckets && Less(le, Finite(y)) :: buckets[le] < rank
    ensures LastBefore(z, buckets.Keys, y) && CountAt(buckets, z) < rank
    ensures RankPoint(rank, buckets) == Interpolate(z, y, CountAt(buckets, z), buckets[Finite(y)], rank)
  {
    var i := RowOf(buckets, Finite(y));
    ScanStops(Rows(buckets), i, rank);
    z := RowBefore(buckets, i, y);
  }

  lemma ScanPasses(rows: seq<Row>, rank: real)
    requires forall i | 0 <= i < |rows| :: rows[i].le.Finite? && rows[i].cum < rank
    ensures Scan(rows, rank, 0.0, 0.0) == if rows == [] then 0.0 else rows[|rows| - 1].le.v
  {
    ScanSkips(rows, |rows|, rank, 0.0, 0.0);
    assert rows[|rows|..] == [];
  }

  lemma LastOfRows(buckets: Buckets, x: real) returns (z: real)
    requires PositiveBounds(buckets.Keys) && x > 0.0
    requires forall le | le in buckets :: le.Finite? && le.v < x
    ensures z == if Rows(buckets) == [] then 0.0 else Rows(buckets)[|Rows(buckets)| - 1].le.v
    ensures LastBefore(z, buckets.Keys, x)
  {
    var rows := Rows(buckets);
    assert rows != [] ==> rows[|rows| - 1].le in buckets.Keys;
    z := if rows == [] then 0.0 else rows[|rows| - 1].le.v;
    forall le | le in buckets ensures rows != [] && le.v <= z {
      var i := RowOf(buckets, le);
    }
  }

  lemma NoRowReaches(finite: Buckets, rank: real)
    requires forall le | le in finite :: le.Finite? && finite[le] < rank
    ensures forall i | 0 <= i < |Rows(finite)| :: Rows(finite)[i].le.Finite? && Rows(finite)[i].cum < rank
  {
    assert forall i | 0 <= i < |Rows(finite)| :: Rows(finite)[i].le in finite;
  }

  lemma PlaceLastFinite(finite: Buckets, rank: real, x: real) returns (z: real)
    requires PositiveBounds(finite.Keys) && x > 0.0
    requires forall le | le in finite :: le.Finite? && le.v < x && finite[le] < rank
    ensures LastBefore(z, finite.Keys, x) && RankPoint(rank, finite) == z
  {
    NoRowReaches(finite, rank);
    ScanPasses(Rows(finite), rank);
    z := LastOfRows(finite, x);
  }

  /** A rank that no finite bound reaches is placed at the last one. */
  lemma PlaceLast(buckets: Buckets, rank: real, x: real) returns (z: real)
    requires PositiveBounds(buckets.Keys) && x > 0.0
    requires forall le | le in buckets && le.Finite? :: le.v < x && buckets[le] < rank
    ensures LastBefore(z, buckets.Keys, x) && RankPoint(rank, buckets) == z
  {
    RankPointOfFinites(rank, buckets);
    z := PlaceLastFinite(Finites(buckets), rank, x);
    FinitesLast(buckets, z, x);
  }

  lemma FinitesLast(buckets: Buckets, z: real, x: real)
    requires LastBefore(z, Finites(buckets).Keys, x)
    ensures LastBefore(z, buckets.Keys, x)
  {
    forall le | le in buckets && le.Finite? && le.v < x ensures le.v <= z {
      assert le in Finites(buckets).Keys;
    }
  }

  /** Between `x` and the first bound from `x` on there is none. */
  lemma SameLastBefore(keys: set<Bound>, x: real, y: real, p: real, z: real)
    requires LastBefore(p, keys, x) && LastBefore(z, keys, y) && x <= y
    requires forall le | le in keys && le.Finite? && x <= le.v :: y <= le.v
    ensures z == p
  {
    assert z != 0.0 ==> Finite(z) in keys && !(y <= Finite(z).v);
    assert p != 0.0 ==> Finite(p) in keys && Finite(p).v < y;
  }

  // ---------- Steps ----------

  /** All mass in the bucket that `x` falls in. */
  ghost function StepHisto(keys: set<Bound>, x: real, mass: real): Histo {
    Histo(map le | le in keys :: if Less(le, Finite(x)) then 0.0 else mass, mass)
  }

  lemma StepHistoIsGenuine(keys: set<Bound>, x: real, mass: real)
    requires PositiveBounds(keys) && mass > 0.0
    ensures Genuine(StepHisto(keys, x, mass), keys)
  {
  }

  /** The share `q` of a distance. */
  function Share(q: real, d: real): real { q * d }

  lemma RankWithin(q: real, mass: real)
    requires mass > 0.0 && 0.0 < q < 1.0
    ensures 0.0 < Rank(q, mass) <= mass
  {
    RankSign(q, mass);
    RankMonotone(q, 1.0, mass);
    assert Rank(1.0, mass) == mass;
  }

  lemma Cancelled(q: real, mass: real)
    requires mass > 0.0
    ensures Rank(q, mass) / mass == q
  {
  }

  lemma PointOfShare(q: real, mass: real, p: real, y: real)
    requires mass > 0.0
    ensures Interpolate(p, y, 0.0, mass, Rank(q, mass)) == p + Share(q, y - p)
  {
    Cancelled(q, mass);
  }

  lemma StepCounts(keys: set<Bound>, x: real, mass: real, p: real, y: real)
    requires LastBefore(p, keys, x) && FirstFrom(Some(y), keys, x) && PositiveBounds(keys)
    ensures var m := StepHisto(keys, x, mass).buckets;
            && Finite(y) in m && m[Finite(y)] == mass && CountAt(m, p) == 0.0
            && forall le | le in m && Less(le, Finite(y)) :: m[le] == 0.0
  {
  }

  lemma StepPlace(keys: set<Bound>, x: real, mass: real, rank: real, p: real, y: real)
    requires PositiveBounds(keys) && 0.0 < rank <= mass && LastBefore(p, keys, x) && FirstFrom(Some(y), keys, x)
    ensures RankPoint(rank, StepHisto(keys, x, mass).buckets) == Interpolate(p, y, 0.0, mass, rank)
  {
    StepCounts(keys, x, mass, p, y);
    var z := PlaceAt(StepHisto(keys, x, mass).buckets, rank, y);
    SameLastBefore(keys, x, y, p, z);
  }

  /** A replica with all mass around `x` places its own quantile on the way to its next bound, or at its last one. */
  lemma StepQuantile(h: Histo, keys: set<Bound>, x: real, q: real, p: real, next: Option<real>)
    requires PositiveBounds(keys) && h.total > 0.0 && 0.0 < q < 1.0 && h == StepHisto(keys, x, h.total)
    requires LastBefore(p, keys, x) && FirstFrom(next, keys, x)
    ensures Quantile(q, h.buckets, h.total) == if next.None? then p else p + Share(q, next.value - p)
  {
    RankWithin(q, h.total);
    if next.Some? {
      StepPlace(keys, x, h.total, Rank(q, h.total), p, next.value);
      PointOfShare(q, h.total, p, next.value);
    } else {
      var z := PlaceLast(h.buckets, Rank(q, h.total), x);
      SameLastBefore(keys, x, x, p, z);
    }
  }

  /** Two replicas that step at `x`, which is a bound of the first only; `next` is the second's next one. */
  ghost predicate StepPair(a: Histo, b: Histo, k1: set<Bound>, k2: set<Bound>, x: real, p: real, next: Option<real>) {
    && PositiveBounds(k1) && PositiveBounds(k2) && b.total > 0.0
    && a == StepHisto(k1, x, 1.0) && b == StepHisto(k2, x, b.total)
    && Finite(x) in k1 && Finite(x) !in k2 && LastBefore(p, k1, x) && LastBefore(p, k2, x) && FirstFrom(next, k2, x)
  }

  /** Merged, they count nothing before `x` and one from there to the second's next bound. */
  lemma {:induction false} MergedCounts(a: Histo, b: Histo, k1: set<Bound>, k2: set<Bound>, x: real, p: real,
                                        next: Option<real>)
    requires StepPair(a, b, k1, k2, x, p, next)
    ensures var m := MergeOne(a, b).buckets;
            && m.Keys == k1 + k2 && PositiveBounds(m.Keys) && Finite(x) in m && LastBefore(p, m.Keys, x)
            && (forall le | le in m && le.Finite? && le.v < x :: m[le] == 0.0)
            && (forall le | le in m && le.Finite? && x <= le.v && (next.Some? ==> le.v < next.value) :: m[le] == 1.0)
            && (next.Some? ==> x < next.value && Finite(next.value) in m
                               && b.total <= m[Finite(next.value)] <= 1.0 + b.total)
  {
    assert MergeOne(a, b).buckets.Keys == k1 + k2;
  }

  /** No next bound: a rank of one is met by the first replica's step alone, at its very end. */
  lemma MergedAtStep(a: Histo, b: Histo, k1: set<Bound>, k2: set<Bound>, x: real, p: real)
    requires StepPair(a, b, k1, k2, x, p, None)
    ensures RankPoint(1.0, MergeOne(a, b).buckets) == x
  {
    MergedCounts(a, b, k1, k2, x, p, None);
    var m := MergeOne(a, b).buckets;
    var z := PlaceAt(m, 1.0, x);
    assert CountAt(m, z) == 0.0;
    assert Interpolate(z, x, 0.0, 1.0, 1.0) == x;
  }

  /** Without a next bound of its own the second replica is placed before the first. */
  lemma OwnBeforeStep(q: real, a: Histo, b: Histo, k1: set<Bound>, k2: set<Bound>, x: real, p: real)
    requires StepPair(a, b, k1, k2, x, p, None) && 0.0 < q < 1.0
    ensures Quantile(q, a.buckets, a.total) < x && Quantile(q, b.buckets, b.total) < x
  {
    FirstIs(k1, x);
    StepQuantile(a, k1, x, q, p, Some(x));
    StepQuantile(b, k2, x, q, p, None);
    ShareIsLess(q, x - p);
  }

  lemma EscapeToStep(q: real, a: Histo, b: Histo, k1: set<Bound>, k2: set<Bound>, x: real, p: real)
    requires StepPair(a, b, k1, k2, x, p, None) && 0.0 < q < 1.0 && Rank(q, 1.0 + b.total) == 1.0
    ensures !MergesWithin(q, a, b)
  {
    OwnBeforeStep(q, a, b, k1, k2, x, p);
    MergedAtStep(a, b, k1, k2, x, p);
    MergeIsNotEmpty(a, b, k1, x);
    NotWithin(q, a, b, MergeOne(a, b), 1.0, x);
  }

  lemma MergeIsNotEmpty(a: Histo, b: Histo, k1: set<Bound>, x: real)
    requires Finite(x) in k1 && a == StepHisto(k1, x, 1.0)
    ensures MergeOne(a, b).buckets != map[] && MergeOne(a, b).total == 1.0 + b.total
  {
    assert Finite(x) in MergeOne(a, b).buckets;
  }

  lemma FirstIs(keys: set<Bound>, x: real)
    requires Finite(x) in keys
    ensures FirstFrom(Some(x), keys, x)
  {
  }

  lemma ShareIsLess(q: real, d: real)
    requires 0.0 < q < 1.0 && d > 0.0
    ensures 0.0 < Share(q, d) < d
  {
    ProductSign(q, d);
    ProductSign(1.0 - q, d);
    TimesDifference(q, 1.0, d);
  }

  /** A next bound `y`: a rank above one passes the first replica's step and is placed on the way to `y`. */
  lemma MergedPastStep(a: Histo, b: Histo, k1: set<Bound>, k2: set<Bound>, x: real, p: real, y: real, rank: real)
      returns (z: real, c: real)
    requires StepPair(a, b, k1, k2, x, p, Some(y)) && 1.0 < rank <= b.total
    ensures x <= z < y && b.total <= c <= 1.0 + b.total
    ensures RankPoint(rank, MergeOne(a, b).buckets) == Interpolate(z, y, 1.0, c, rank)
  {
    MergedCounts(a, b, k1, k2, x, p, Some(y));
    var m := MergeOne(a, b).buckets;
    c := m[Finite(y)];
    z := PlaceAt(m, rank, y);
    assert Finite(x) in m && Finite(x).v < y;
    assert Finite(z) in m;
  }

  lemma MergedBeyond(a: Histo, b: Histo, k1: set<Bound>, k2: set<Bound>, x: real, p: real, y: real, q: real, own: real)
    requires StepPair(a, b, k1, k2, x, p, Some(y)) && 0.0 < q < 1.0
    ensures HeavyEnough(q, b.total, x - p, y - x) && own == p + Share(q, y - p)
            ==> own < RankPoint(Rank(q, 1.0 + b.total), MergeOne(a, b).buckets)
  {
    if HeavyEnough(q, b.total, x - p, y - x) {
      var z, c := MergedPastStep(a, b, k1, k2, x, p, y, Rank(q, 1.0 + b.total));
      LandsBeyond(q, b.total, c, x, p, y, z);
    }
  }

  /** With one, the second is placed after the first. */
  lemma OwnPastStep(q: real, a: Histo, b: Histo, k1: set<Bound>, k2: set<Bound>, x: real, p: real, y: real)
      returns (own: real)
    requires StepPair(a, b, k1, k2, x, p, Some(y)) && 0.0 < q < 1.0
    ensures own == p + Share(q, y - p)
    ensures Quantile(q, a.buckets, a.total) <= own && Quantile(q, b.buckets, b.total) <= own
  {
    own := p + Share(q, y - p);
    FirstIs(k1, x);
    StepQuantile(a, k1, x, q, p, Some(x));
    StepQuantile(b, k2, x, q, p, Some(y));
    SharesGrow(q, x - p, y - p);
  }

  lemma EscapePastStep(q: real, a: Histo, b: Histo, k1: set<Bound>, k2: set<Bound>, x: real, p: real, y: real)
    requires StepPair(a, b, k1, k2, x, p, Some(y)) && 0.0 < q < 1.0
    ensures HeavyEnough(q, b.total, x - p, y - x) ==> !MergesWithin(q, a, b)
  {
    if HeavyEnough(q, b.total, x - p, y - x) {
      var rank := Rank(q, 1.0 + b.total);
      var own := OwnPastStep(q, a, b, k1, k2, x, p, y);
      MergedBeyond(a, b, k1, k2, x, p, y, q, own);
      MergeIsNotEmpty(a, b, k1, x);
      NotWithin(q, a, b, MergeOne(a, b), rank, RankPoint(rank, MergeOne(a, b).buckets));
    }
  }

  lemma SharesGrow(q: real, c: real, d: real)
    requires q > 0.0 && c < d
    ensures Share(q, c) < Share(q, d)
  {
    ScaleMonotone(q, c, d);
  }

  /** The second replica's mass, against its distance `d` beyond the first's step of width `w`. */
  ghost predicate HeavyEnough(q: real, heavy: real, w: real, d: real) {
    heavy > 1.0 && d < Share(heavy, w) && 1.0 < Rank(q, 1.0 + heavy) <= heavy
  }

  lemma SomeMassIsHeavyEnough(q: real, w: real, d: real) returns (heavy: real)
    requires 0.0 < q < 1.0 && w > 0.0 && d > 0.0
    ensures HeavyEnough(q, heavy, w, d)
  {
    var i, j, k := d / w, 1.0 / q, 1.0 / (1.0 - q);
    DivMul(d, w);
    DivMul(1.0, q);
    DivMul(1.0, 1.0 - q);
    FracMonotone(0.0, d, w);
    FracMonotone(q, 1.0, q);
    FracMonotone(0.0, 1.0, 1.0 - q);
    heavy := i + j + k;
    HeavyProducts(q, w, i, j, k);
    SumOfShares(q, heavy);
  }

  lemma HeavyProducts(q: real, w: real, i: real, j: real, k: real)
    requires 0.0 < q < 1.0 && w > 0.0 && i > 0.0 && j > 0.0 && k > 0.0 && j * q == 1.0 && k * (1.0 - q) == 1.0
    ensures var h := i + j + k; i * w < Share(h, w) && q * h > 1.0 && q * h < h - 1.0
  {
    var h := i + j + k;
    ProductSign(j + k, w);
    ThreeTerms(i, j, k, w);
    ProductSign(i, q);
    ProductSign(k, q);
    ThreeTerms(i, j, k, q);
    ProductSign(i, 1.0 - q);
    ProductSign(j, 1.0 - q);
    ThreeTerms(i, j, k, 1.0 - q);
    TimesDifference(q, 1.0, h);
  }

  lemma ThreeTerms(i: real, j: real, k: real, d: real)
    ensures (i + j + k) * d == i * d + j * d + k * d && (j + k) * d == j * d + k * d
    ensures (i + j + k) * d == d * (i + j + k)
  {
  }

  lemma SumOfShares(q: real, heavy: real)
    ensures Rank(q, 1.0 + heavy) == q + q * heavy
  {
  }

  /** The point on the line from (z, 1) to (y, c) is beyond the second replica's own. */
  lemma LandsBeyond(q: real, heavy: real, c: real, x: real, p: real, y: real, z: real)
    requires 0.0 < q < 1.0 && p < x <= z < y && 1.0 < heavy <= c <= 1.0 + heavy
    ensures HeavyEnough(q, heavy, x - p, y - x)
            ==> p + Share(q, y - p) < Interpolate(z, y, 1.0, c, Rank(q, 1.0 + heavy))
  {
    if HeavyEnough(q, heavy, x - p, y - x) {
      var rank := Rank(q, 1.0 + heavy);
      var g := OwnIsShort(q, heavy, rank, x, p, y);
      LineBeyond(x, z, y, c, heavy, rank, g);
    }
  }

  lemma LineBeyond(x: real, z: real, y: real, c: real, heavy: real, rank: real, g: real)
    requires x <= z < y && 1.0 < rank <= heavy <= c <= 1.0 + heavy && g == (rank - 1.0) / heavy
    ensures Mix(x, y, g) <= Interpolate(z, y, 1.0, c, rank)
  {
    FractionsOrdered(rank - 1.0, c - 1.0, heavy);
    LineOrdered(x, z, y, (rank - 1.0) / (c - 1.0), g);
  }

  lemma OwnIsShort(q: real, heavy: real, rank: real, x: real, p: real, y: real) returns (g: real)
    requires 0.0 < q < 1.0 && heavy > 0.0 && rank == Rank(q, 1.0 + heavy) && y - x < Share(heavy, x - p)
    ensures g == (rank - 1.0) / heavy && p + Share(q, y - p) < Mix(x, y, g)
  {
    g := (rank - 1.0) / heavy;
    DivMul(rank - 1.0, heavy);
    SumOfShares(q, heavy);
    ShareBound(q, g, heavy, x - p, y - x);
    SharesAdd(q, x - p, y - x);
  }

  lemma SharesAdd(q: real, c: real, d: real)
    ensures Share(q, c + d) == Share(q, c) + Share(q, d)
  {
  }

  lemma FractionsOrdered(r: real, c: real, h: real)
    requires 0.0 < r <= c <= h
    ensures 0.0 < r / h <= r / c <= 1.0
  {
    FractionOf(r, c);
    FractionOf(r, h);
    DivMul(r, c);
    DivMul(r, h);
    var f, g := r / c, r / h;
    if g > f {
      ScaleMonotone(c, f, g);
      ScaleMonotone(g, c, h);
    }
  }

  /** Further along, and further out to start with. */
  lemma LineOrdered(x: real, z: real, y: real, f: real, g: real)
    requires x <= z < y && 0.0 < g <= f <= 1.0
    ensures Mix(x, y, g) <= z + f * (y - z)
  {
    ScaleMonotone(y - x, g, f);
    ScaleMonotone(1.0 - f, 0.0, z - x);
    assert (1.0 - f) * (z - x) == (z - x) - f * (z - x);
    assert f * (y - x) == f * (y - z) + f * (z - x);
  }

  lemma ShareBound(q: real, g: real, h: real, w: real, d: real)
    requires 0.0 < q < 1.0 && h > 0.0 && d < Share(h, w) && g * h == q + q * h - 1.0
    ensures Share(q, w) + Share(q, d) < w + g * d
  {
    var e := q - g;
    TimesDifference(g, q, h);
    ProductSign(e, h);
    ScaleMonotone(e, d, h * w);
    assert e * (h * w) == (e * h) * w == (1.0 - q) * w;
    TimesDifference(q, 1.0, w);
    TimesDifference(g, q, d);
  }

  /** The counterexample, for any fraction: both replicas step at a bound that only one has. */
  lemma EscapeAt(q: real, k1: set<Bound>, k2: set<Bound>, x: real, p: real, next: Option<real>)
      returns (a: Histo, b: Histo)
    requires 0.0 < q < 1.0 && PositiveBounds(k1) && PositiveBounds(k2)
    requires Finite(x) in k1 && Finite(x) !in k2 && LastBefore(p, k1, x) && LastBefore(p, k2, x)
    requires FirstFrom(next, k2, x)
    ensures Genuine(a, k1) && Genuine(b, k2) && !MergesWithin(q, a, b)
  {
    a := StepHisto(k1, x, 1.0);
    StepHistoIsGenuine(k1, x, 1.0);
    match next
    case None =>
      var heavy := FillsUpToOne(q);
      b := StepHisto(k2, x, heavy);
      StepHistoIsGenuine(k2, x, heavy);
      EscapeToStep(q, a, b, k1, k2, x, p);
    case Some(y) =>
      var heavy := SomeMassIsHeavyEnough(q, x - p, y - x);
      b := StepHisto(k2, x, heavy);
      StepHistoIsGenuine(k2, x, heavy);
      EscapePastStep(q, a, b, k1, k2, x, p, y);
  }

  lemma FillsUpToOne(q: real) returns (heavy: real)
    requires 0.0 < q < 1.0
    ensures heavy > 0.0 && Rank(q, 1.0 + heavy) == 1.0
  {
    DivMul(1.0, q);
    FracMonotone(q, 1.0, q);
    heavy := 1.0 / q - 1.0;
  }

  lemma NotWithin(q: real, a: Histo, b: Histo, m: Histo, rank: real, merged: real)
    requires a.total > 0.0 && b.total > 0.0 && m == MergeOne(a, b) && m.buckets != map[] && rank == Rank(q, m.total)
    requires Quantile(q, a.buckets, a.total) < merged && Quantile(q, b.buckets, b.total) < merged
    requires RankPoint(rank, m.buckets) == merged
    ensures !MergesWithin(q, a, b)
  {
    var qa, qb := Quantile(q, a.buckets, a.total), Quantile(q, b.buckets, b.total);
    var lo, hi := MinR(qa, qb) * 1000.0, MaxR(qa, qb) * 1000.0;
    assert ReportsWithin(q, a, lo, hi) && ReportsWithin(q, b, lo, hi);
    assert !ReportsWithin(q, m, lo, hi);
  }

  // ---------- Both halves ----------

  lemma LastBeforeExists(keys: set<Bound>, x: real) returns (p: real)
    requires PositiveBounds(keys) && x > 0.0
    ensures LastBefore(p, keys, x)
  {
    var before := set le | le in keys && le.Finite? && le.v < x;
    var les := Ordered(before);
    assert forall le | le in keys && le.Finite? && le.v < x :: le in before;
    if before == {} {
      p := 0.0;
    } else {
      var one :| one in before;
      assert one in les;
      var last := les[|les| - 1];
      assert last in before;
      p := last.v;
      forall le | le in before ensures le.v <= p {
        assert le in les;
      }
    }
  }

  lemma FirstFromExists(keys: set<Bound>, x: real) returns (next: Option<real>)
    ensures FirstFrom(next, keys, x)
  {
    var from := set le | le in keys && le.Finite? && x <= le.v;
    var les := Ordered(from);
    assert forall le | le in keys && le.Finite? && x <= le.v :: le in from;
    if from == {} {
      next := None;
    } else {
      var one :| one in from;
      assert one in les;
      assert les[0] in from;
      next := Some(les[0].v);
      forall le | le in from ensures les[0].v <= le.v {
        assert le in les;
      }
    }
  }

  /** The finite bounds of one side only. */
  ghost function Unshared(k1: set<Bound>, k2: set<Bound>): set<Bound> {
    (FiniteKeys(k1) - FiniteKeys(k2)) + (FiniteKeys(k2) - FiniteKeys(k1))
  }

  /** Some genuine pair over these bounds merges to a quantile outside its range. */
  ghost predicate CanEscape(q: real, k1: set<Bound>, k2: set<Bound>) {
    exists a: Histo, b: Histo :: Genuine(a, k1) && Genuine(b, k2) && !MergesWithin(q, a, b)
  }

  lemma EscapeWith(q: real, k1: set<Bound>, k2: set<Bound>, x: real)
    requires 0.0 < q < 1.0 && PositiveBounds(k1) && PositiveBounds(k2) && Finite(x) in k1 && Finite(x) !in k2
    requires forall le | le in Unshared(k1, k2) :: x <= le.v
    ensures CanEscape(q, k1, k2)
  {
    var p := LastBeforeExists(k1, x);
    SharedBelow(k1, k2, x, p);
    var next := FirstFromExists(k2, x);
    var a, b := EscapeAt(q, k1, k2, x, p, next);
  }

  lemma SharedBelow(k1: set<Bound>, k2: set<Bound>, x: real, p: real)
    requires PositiveBounds(k1) && LastBefore(p, k1, x)
    requires forall le | le in Unshared(k1, k2) :: x <= le.v
    ensures LastBefore(p, k2, x)
  {
    forall le: Bound | le.Finite? && le.v < x ensures le in k1 <==> le in k2 {
      assert le !in Unshared(k1, k2);
    }
    assert p != 0.0 ==> Finite(p).v < x;
  }

  lemma MergeOneCommutes(a: Histo, b: Histo)
    ensures MergeOne(a, b) == MergeOne(b, a)
  {
    assert Merge(a.buckets, b.buckets) == Merge(b.buckets, a.buckets);
  }

  lemma EscapeCommutes(q: real, k1: set<Bound>, k2: set<Bound>)
    ensures CanEscape(q, k1, k2) ==> CanEscape(q, k2, k1)
  {
    if CanEscape(q, k1, k2) {
      var a: Histo, b: Histo :| Genuine(a, k1) && Genuine(b, k2) && !MergesWithin(q, a, b);
      MergeOneCommutes(a, b);
      assert !MergesWithin(q, b, a);
    }
  }

  lemma UnsharedBoundEscapes(q: real, k1: set<Bound>, k2: set<Bound>)
    requires 0.0 < q < 1.0 && PositiveBounds(k1) && PositiveBounds(k2) && FiniteKeys(k1) != FiniteKeys(k2)
    ensures CanEscape(q, k1, k2)
  {
    var les := Ordered(Unshared(k1, k2));
    var one :| (one in FiniteKeys(k1)) != (one in FiniteKeys(k2));
    assert one in Unshared(k1, k2) && one in les;
    var least := les[0];
    assert least in Unshared(k1, k2);
    forall le | le in Unshared(k1, k2) ensures least.v <= le.v {
      assert le in les;
    }
    assert least == Finite(least.v);
    if least in k1 {
      EscapeWith(q, k1, k2, least.v);
    } else {
      assert Unshared(k2, k1) == Unshared(k1, k2);
      EscapeWith(q, k2, k1, least.v);
      EscapeCommutes(q, k2, k1);
    }
  }

  lemma GenuineFits(h: Histo, keys: set<Bound>)
    requires Genuine(h, keys) && h.buckets != map[]
    ensures FitsIn(h, FiniteKeys(keys))
  {
  }

  lemma RanksMerge(q: real, a: Histo, b: Histo, m: Histo)
    requires m == MergeOne(a, b)
    ensures Ranked(q, FiniteHisto(m)) == MergeOne(Ranked(q, FiniteHisto(a)), Ranked(q, FiniteHisto(b)))
  {
    MergeOfFinites(a.buckets, b.buckets);
    assert Rank(q, a.total + b.total) == Rank(q, a.total) + Rank(q, b.total);
  }

  lemma MergedIsPlaced(q: real, a: Histo, b: Histo, m: Histo, keys: set<Bound>, lo: real, hi: real)
    requires Reports(Ranked(q, FiniteHisto(a)), keys) && HistoPlaced(Ranked(q, FiniteHisto(a)), lo, hi)
    requires Reports(Ranked(q, FiniteHisto(b)), keys) && HistoPlaced(Ranked(q, FiniteHisto(b)), lo, hi)
    requires m == MergeOne(a, b)
    ensures HistoPlaced(Ranked(q, FiniteHisto(m)), lo, hi)
  {
    RanksMerge(q, a, b, m);
    MergeStep(Ranked(q, FiniteHisto(a)), Ranked(q, FiniteHisto(b)), Ranked(q, FiniteHisto(m)), keys, lo, hi);
  }

  lemma TwoStayWithin(q: real, a: Histo, b: Histo, m: Histo, keys: set<Bound>, lo: real, hi: real)
    requires q > 0.0 && FitsIn(a, keys) && FitsIn(b, keys)
    ensures m == MergeOne(a, b) && ReportsWithin(q, a, lo, hi) && ReportsWithin(q, b, lo, hi)
            ==> ReportsWithin(q, m, lo, hi)
  {
    if m == MergeOne(a, b) && ReportsWithin(q, a, lo, hi) && ReportsWithin(q, b, lo, hi) {
      ReportIsPlaced(q, a, keys, lo, hi);
      ReportIsPlaced(q, b, keys, lo, hi);
      MergedIsPlaced(q, a, b, m, keys, lo / 1000.0, hi / 1000.0);
      PlacedIsReport(q, m, lo, hi);
    }
  }

  /** Two replicas over the same finite bounds stay within each other. */
  lemma PairStaysWithin(q: real, a: Histo, b: Histo, k1: set<Bound>, k2: set<Bound>, lo: real, hi: real)
    requires 0.0 < q && Genuine(a, k1) && Genuine(b, k2) && FiniteKeys(k1) == FiniteKeys(k2)
    requires ReportsWithin(q, a, lo, hi) && ReportsWithin(q, b, lo, hi)
    ensures ReportsWithin(q, MergeOne(a, b), lo, hi)
  {
    if a.buckets == map[] {
      BarePairStaysWithin(q, a, b, lo, hi);
    } else if b.buckets == map[] {
      MergeOneCommutes(a, b);
      BarePairStaysWithin(q, b, a, lo, hi);
    } else {
      GenuineFits(a, k1);
      GenuineFits(b, k2);
      TwoStayWithin(q, a, b, MergeOne(a, b), FiniteKeys(k1), lo, hi);
    }
  }

  /** A replica without buckets, and one with no finite bound, whose quantile is always zero. */
  lemma BarePairStaysWithin(q: real, a: Histo, b: Histo, lo: real, hi: real)
    requires a.buckets == map[] && FiniteKeys(b.buckets.Keys) == {} && a.total > 0.0 && b.total > 0.0
    requires ReportsWithin(q, b, lo, hi)
    ensures ReportsWithin(q, MergeOne(a, b), lo, hi)
  {
    assert Merge(a.buckets, b.buckets) == b.buckets;
    NoFiniteBoundPlacesAtZero(Rank(q, b.total), b.buckets);
    NoFiniteBoundPlacesAtZero(Rank(q, a.total + b.total), b.buckets);
  }

  lemma NoFiniteBoundPlacesAtZero(rank: real, buckets: Buckets)
    requires FiniteKeys(buckets.Keys) == {}
    ensures RankPoint(rank, buckets) == 0.0
  {
    forall le | le in buckets ensures le.PosInf? {
      assert le.Finite? ==> le in FiniteKeys(buckets.Keys);
    }
    assert Finites(buckets) == map[];
    RankPointOfFinites(rank, buckets);
    assert Rows(map[]) == [];
  }

  /** Exactly which replicas may be merged: for any fraction and any two sets of bounds, every genuine pair over
      them merges to a quantile within the pair's range, if and only if their finite bounds are the same. */
  lemma MergingIsSafeIff(q: real, k1: set<Bound>, k2: set<Bound>)
    requires 0.0 < q < 1.0 && PositiveBounds(k1) && PositiveBounds(k2)
    ensures (forall a: Histo, b: Histo | Genuine(a, k1) && Genuine(b, k2) :: MergesWithin(q, a, b))
       <==> FiniteKeys(k1) == FiniteKeys(k2)
  {
    if FiniteKeys(k1) == FiniteKeys(k2) {
      forall a: Histo, b: Histo | Genuine(a, k1) && Genuine(b, k2) ensures MergesWithin(q, a, b) {
        forall lo, hi | ReportsWithin(q, a, lo, hi) && ReportsWithin(q, b, lo, hi)
          ensures ReportsWithin(q, MergeOne(a, b), lo, hi)
        {
          PairStaysWithin(q, a, b, k1, k2, lo, hi);
        }
      }
    } else {
      UnsharedBoundEscapes(q, k1, k2);
    }
  }
}
