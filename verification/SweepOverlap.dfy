/** When archived rows are in one place only: sweeps one at a time, and sweeps that overlap. */
module SweepOverlap {
  import opened Archiver
  import opened Common

  // ---------- One sweep at a time: exactly once ----------

  ghost function RowsListed(ms: seq<Manifest>): nat {
    if ms == [] then 0 else RowsListed(ms[..|ms| - 1]) + ms[|ms| - 1].rowCount
  }

  ghost predicate SweepExact(s: Store, p: Phase) {
    && p.batch != [] && Distinct(p.batch) && Members(p.batch) == Expired(s.pg, p.cutoff)
    && (p.Uploaded? ==>
          && p.key in s.objects && s.objects[p.key] == p.batch
          && forall m | m in s.manifests :: m.key != p.key)
  }

  /** A row is in the table exactly while no listed object has it, and no two objects have it. */
  ghost predicate Placed(s: Store, inserted: set<Row>) {
    && s.pg <= inserted
    && (forall r | r in inserted :: r in s.pg <==> !Listed(s, r))
    && (forall i, r | 0 <= i < |s.manifests| && ListedAt(s, i, r) :: r in inserted)
    && (forall i, j, r | 0 <= i < j < |s.manifests| && ListedAt(s, i, r) :: !ListedAt(s, j, r))
  }

  ghost predicate ExactlyOnce(w: World) {
    && KeysStored(w.store)
    && Placed(w.store, w.inserted)
    && |w.inserted| == |w.store.pg| + RowsListed(w.store.manifests)
    && (forall id, other | id in w.sweeps && other in w.sweeps :: id == other)
    && forall id | id in w.sweeps :: SweepExact(w.store, w.sweeps[id])
  }

  lemma InsertKeepsExactlyOnce(w: World, row: Row, limit: nat)
    requires ExactlyOnce(w) && Can(w, Insert(row), limit) && Tame(w, Insert(row), limit)
    ensures ExactlyOnce(Do(w, Insert(row), limit))
  {
    var v := Do(w, Insert(row), limit);
    assert forall i, r | 0 <= i < |w.store.manifests| :: ListedAt(v.store, i, r) == ListedAt(w.store, i, r);
    assert forall r :: Listed(v.store, r) == Listed(w.store, r);
    forall id | id in v.sweeps ensures SweepExact(v.store, v.sweeps[id]) {
      assert SweepExact(w.store, w.sweeps[id]);
      assert Expired(v.store.pg, w.sweeps[id].cutoff) == Expired(w.store.pg, w.sweeps[id].cutoff);
    }
  }

  lemma PutKeepsExactlyOnce(w: World, id: nat, key: nat, next: map<nat, Phase>)
    requires ExactlyOnce(w) && id in w.sweeps && key !in w.store.objects
    requires next == w.sweeps - {id} || next == w.sweeps[id := Uploaded(w.sweeps[id].cutoff, w.sweeps[id].batch, key)]
    ensures ExactlyOnce(w.(store := Put(w.store, key, w.sweeps[id].batch), sweeps := next))
  {
    var s, t := w.store, Put(w.store, key, w.sweeps[id].batch);
    assert forall i | 0 <= i < |s.manifests| :: s.manifests[i] in s.manifests;
    assert forall i, r | 0 <= i < |s.manifests| :: ListedAt(t, i, r) == ListedAt(s, i, r);
    assert forall r :: Listed(t, r) == Listed(s, r);
    assert SweepExact(s, w.sweeps[id]);
  }

  lemma CommitKeepsPlaced(s: Store, p: Phase, inserted: set<Row>)
    requires Placed(s, inserted) && p.Uploaded? && SweepExact(s, p)
    ensures Placed(Transact(s, p.cutoff, p.key, p.batch), inserted)
  {
    var t, n := Transact(s, p.cutoff, p.key, p.batch), |s.manifests|;
    assert forall r | r in p.batch :: r in Members(p.batch) && r in s.pg;
    forall i, r | 0 <= i < n ensures ListedAt(t, i, r) == ListedAt(s, i, r) && (ListedAt(s, i, r) ==> r !in p.batch) {
      assert ListedAt(s, i, r) ==> Listed(s, r);
    }
    assert forall r :: ListedAt(t, n, r) <==> r in p.batch;
    forall r ensures Listed(t, r) <==> Listed(s, r) || r in p.batch {
      ListedAfterTransact(s, p.cutoff, p.key, p.batch, r);
    }
    assert forall r | r in inserted :: r in p.batch <==> r in Members(p.batch);
  }

  lemma CommitKeepsCount(s: Store, p: Phase)
    requires p.Uploaded? && SweepExact(s, p)
    ensures var t := Transact(s, p.cutoff, p.key, p.batch);
            |t.pg| + RowsListed(t.manifests) == |s.pg| + RowsListed(s.manifests)
  {
    var t := Transact(s, p.cutoff, p.key, p.batch);
    MembersOfDistinct(p.batch);
    assert s.pg == t.pg + Members(p.batch) && t.pg !! Members(p.batch);
    assert t.manifests[..|s.manifests|] == s.manifests;
  }

  lemma CommitKeepsExactlyOnce(w: World, id: nat, limit: nat)
    requires ExactlyOnce(w) && Can(w, Commit(id), limit)
    ensures ExactlyOnce(Do(w, Commit(id), limit))
  {
    var v, p := Do(w, Commit(id), limit), w.sweeps[id];
    assert SweepExact(w.store, p);
    CommitKeepsPlaced(w.store, p, w.inserted);
    CommitKeepsCount(w.store, p);
    assert v.sweeps == map[];
  }

  lemma StepKeepsExactlyOnce(w: World, step: Step, limit: nat)
    requires ExactlyOnce(w) && Can(w, step, limit) && Tame(w, step, limit)
    requires step.Read? ==> w.sweeps == map[]
    ensures ExactlyOnce(Do(w, step, limit))
  {
    match step
    case Insert(row) => InsertKeepsExactlyOnce(w, row, limit);
    case Read(id, cutoff, batch) => BatchCoversExpired(batch, w.store.pg, cutoff, limit);
    case Upload(id, key) => PutKeepsExactlyOnce(w, id, key, Do(w, step, limit).sweeps);
    case UploadReportedLost(id, key) => PutKeepsExactlyOnce(w, id, key, Do(w, step, limit).sweeps);
    case Commit(id) => CommitKeepsExactlyOnce(w, id, limit);
    case GiveUp(id) =>
  }

  lemma {:induction false} RunKeepsExactlyOnce(w: World, steps: seq<Step>, limit: nat)
    requires ExactlyOnce(w) && Run(w, steps, limit, true)
    ensures ExactlyOnce(End(w, steps, limit, true))
    decreases |steps|
  {
    if steps != [] {
      StepKeepsExactlyOnce(w, steps[0], limit);
      RunKeepsExactlyOnce(Do(w, steps[0], limit), steps[1..], limit);
    }
  }

  /** One sweep at a time: table and listed objects split the rows, each row once, and the counts add up,
      whatever failed on the way and whatever orphans it left. */
  lemma {:induction false} SequentialSweepsPartitionRows(steps: seq<Step>, limit: nat)
    requires Run(START, steps, limit, true)
    ensures var w := End(START, steps, limit, true);
            var s := w.store;
            && (forall r | r in w.inserted :: r in s.pg <==> !Listed(s, r))
            && (forall i, j, r | 0 <= i < j < |s.manifests| && ListedAt(s, i, r) :: !ListedAt(s, j, r))
            && |w.inserted| == |s.pg| + RowsListed(s.manifests)
  {
    RunKeepsExactlyOnce(START, steps, limit);
  }

  /** Then a commit deletes exactly the rows it lists, and its row count is their number. */
  lemma SequentialCommitCountsDeletedRows(steps: seq<Step>, limit: nat, id: nat)
    requires Run(START, steps, limit, true) && Can(End(START, steps, limit, true), Commit(id), limit)
    ensures var w := End(START, steps, limit, true);
            var v := Do(w, Commit(id), limit);
            var m := v.store.manifests[|v.store.manifests| - 1];
            && m.key in v.store.objects
            && w.store.pg - v.store.pg == Members(v.store.objects[m.key])
            && |w.store.pg| - |v.store.pg| == m.rowCount
  {
    RunKeepsExactlyOnce(START, steps, limit);
    var w := End(START, steps, limit, true);
    var p := w.sweeps[id];
    assert SweepExact(w.store, p);
    MembersOfDistinct(p.batch);
    assert w.store.pg == (w.store.pg - Expired(w.store.pg, p.cutoff)) + Members(p.batch);
    assert w.store.pg - (w.store.pg - Expired(w.store.pg, p.cutoff)) == Members(p.batch);
  }

  // ---------- Overlapping sweeps ----------

  /** No row is in two listed objects. */
  ghost predicate ListsOnce(s: Store) {
    forall i, j, r | 0 <= i < j < |s.manifests| && ListedAt(s, i, r) :: !ListedAt(s, j, r)
  }

  ghost predicate NoRead(steps: seq<Step>) { forall k | 0 <= k < |steps| :: !steps[k].Read? }

  lemma {:induction false} NoReadIsSequential(w: World, steps: seq<Step>, limit: nat)
    requires Run(w, steps, limit, false) && NoRead(steps)
    ensures Run(w, steps, limit, true) && End(w, steps, limit, true) == End(w, steps, limit, false)
    decreases |steps|
  {
    if steps != [] {
      NoReadIsSequential(Do(w, steps[0], limit), steps[1..], limit);
    }
  }

  lemma RunOne(w: World, step: Step, rest: seq<Step>, limit: nat)
    requires Can(w, step, limit) && Tame(w, step, limit) && !step.Read?
    requires Run(Do(w, step, limit), rest, limit, false) && NoRead(rest)
    ensures Run(w, [step] + rest, limit, false) && NoRead([step] + rest)
    ensures End(w, [step] + rest, limit, false) == End(Do(w, step, limit), rest, limit, false)
  {
    assert ([step] + rest)[1..] == rest;
  }

  /** Both sweeps have read a row; `left` and `right` are their ids. */
  ghost predicate BothHold(w: World, left: nat, right: nat, r: Row) {
    && left != right && left in w.sweeps && right in w.sweeps
    && r in w.sweeps[left].batch && r in w.sweeps[right].batch
    && forall id | id in [left, right] && w.sweeps[id].Uploaded? ::
         w.sweeps[id].key in w.store.objects && w.store.objects[w.sweeps[id].key] == w.sweeps[id].batch
  }

  /** An upload of one of the two, if it is still to do. */
  lemma UploadOne(w: World, left: nat, right: nat, id: nat, r: Row, limit: nat) returns (steps: seq<Step>)
    requires BothHold(w, left, right, r) && id in [left, right]
    ensures Run(w, steps, limit, false) && NoRead(steps)
    ensures var v := End(w, steps, limit, false);
            && BothHold(v, left, right, r) && v.sweeps[id].Uploaded?
            && forall other | other in w.sweeps && w.sweeps[other].Uploaded? ::
                 other in v.sweeps && v.sweeps[other] == w.sweeps[other]
  {
    if w.sweeps[id].Uploaded? {
      steps := [];
    } else {
      var key := FreshKey(w.store.objects.Keys);
      steps := [Upload(id, key)];
      RunOne(w, Upload(id, key), [], limit);
      assert [Upload(id, key)] + [] == steps;
    }
  }

  lemma CommitBoth(w: World, left: nat, right: nat, r: Row, limit: nat) returns (steps: seq<Step>)
    requires BothHold(w, left, right, r) && w.sweeps[left].Uploaded? && w.sweeps[right].Uploaded?
    ensures Run(w, steps, limit, false) && NoRead(steps) && !ListsOnce(End(w, steps, limit, false).store)
  {
    steps := [Commit(left), Commit(right)];
    var v := Do(w, Commit(left), limit);
    var u := Do(v, Commit(right), limit);
    RunOne(v, Commit(right), [], limit);
    assert [Commit(right)] + [] == [Commit(right)];
    RunOne(w, Commit(left), [Commit(right)], limit);
    assert [Commit(left)] + [Commit(right)] == steps;
    var n := |w.store.manifests|;
    assert ListedAt(u.store, n, r) && ListedAt(u.store, n + 1, r);
  }

  lemma {:induction false} RunsCompose(w: World, xs: seq<Step>, ys: seq<Step>, limit: nat)
    requires Run(w, xs, limit, false) && NoRead(xs) && Run(End(w, xs, limit, false), ys, limit, false) && NoRead(ys)
    ensures Run(w, xs + ys, limit, false) && NoRead(xs + ys)
    ensures End(w, xs + ys, limit, false) == End(End(w, xs, limit, false), ys, limit, false)
    decreases |xs|
  {
    if xs == [] {
      assert xs + ys == ys;
    } else {
      RunsCompose(Do(w, xs[0], limit), xs[1..], ys, limit);
      assert (xs + ys)[1..] == xs[1..] + ys;
    }
  }

  lemma SharedRowIsListedTwice(w: World, left: nat, right: nat, r: Row, limit: nat) returns (steps: seq<Step>)
    requires BothHold(w, left, right, r)
    ensures Run(w, steps, limit, false) && NoRead(steps) && !ListsOnce(End(w, steps, limit, false).store)
  {
    var xs := UploadOne(w, left, right, left, r, limit);
    var v := End(w, xs, limit, false);
    var ys := UploadOne(v, left, right, right, r, limit);
    var u := End(v, ys, limit, false);
    var zs := CommitBoth(u, left, right, r, limit);
    RunsCompose(v, ys, zs, limit);
    RunsCompose(w, xs, ys + zs, limit);
    steps := xs + (ys + zs);
  }

  /** Expired sets are nested, so a read during another sweep always takes a row that sweep has too. */
  lemma ReadsOverlap(w: World, id: nat, cutoff: int, batch: seq<Row>, other: nat, limit: nat) returns (r: Row)
    requires ExactlyOnce(w) && Can(w, Read(id, cutoff, batch), limit) && Tame(w, Read(id, cutoff, batch), limit)
    requires other in w.sweeps
    ensures r in batch && r in w.sweeps[other].batch
  {
    var p := w.sweeps[other];
    assert SweepExact(w.store, p);
    BatchCoversExpired(batch, w.store.pg, cutoff, limit);
    r := if cutoff <= p.cutoff then batch[0] else p.batch[0];
    assert r in Members(batch) && r in Members(p.batch) by {
      assert (if cutoff <= p.cutoff then r in Members(batch) else r in Members(p.batch));
      assert r in w.store.pg && r.ts < cutoff && r.ts < p.cutoff;
    }
  }

  /** Exactly when a sweep may start: whatever inserts, uploads, commits and failures follow, no row is ever
      listed twice, if and only if no other sweep is under way at its read. */
  lemma OverlapIsSafeIff(w: World, id: nat, cutoff: int, batch: seq<Row>, limit: nat)
    requires ExactlyOnce(w) && Can(w, Read(id, cutoff, batch), limit) && Tame(w, Read(id, cutoff, batch), limit)
    ensures var v := Do(w, Read(id, cutoff, batch), limit);
            (forall steps: seq<Step> | Run(v, steps, limit, false) && NoRead(steps) ::
               ListsOnce(End(v, steps, limit, false).store))
            <==> w.sweeps == map[]
  {
    var v := Do(w, Read(id, cutoff, batch), limit);
    if w.sweeps == map[] {
      StepKeepsExactlyOnce(w, Read(id, cutoff, batch), limit);
      forall steps: seq<Step> | Run(v, steps, limit, false) && NoRead(steps)
        ensures ListsOnce(End(v, steps, limit, false).store)
      {
        NoReadIsSequential(v, steps, limit);
        RunKeepsExactlyOnce(v, steps, limit);
      }
    } else {
      var other :| other in w.sweeps;
      var r := ReadsOverlap(w, id, cutoff, batch, other, limit);
      assert SweepExact(w.store, w.sweeps[other]);
      var steps := SharedRowIsListedTwice(v, other, id, r, limit);
    }
  }

  ghost function TwoSweeps(row: Row, c: int): seq<Step> {
    [Insert(row), Read(0, c, [row]), Read(1, c, [row]), Upload(0, 0), Upload(1, 1), Commit(0), Commit(1)]
  }

  /** The stages of two sweeps that both read the same row. */
  ghost function Stage(n: nat, row: Row, c: int): World {
    var held, up0, up1 := HasBatch(c, [row]), Uploaded(c, [row], 0), Uploaded(c, [row], 1);
    var both := map[0 := [row], 1 := [row]];
    var m0, m1 := ManifestOf(0, [row]), ManifestOf(1, [row]);
    if n == 0 then START
    else if n == 1 then World(Store({row}, map[], []), map[], {row})
    else if n == 2 then World(Store({row}, map[], []), map[0 := held], {row})
    else if n == 3 then World(Store({row}, map[], []), map[0 := held, 1 := held], {row})
    else if n == 4 then World(Store({row}, map[0 := [row]], []), map[0 := up0, 1 := held], {row})
    else if n == 5 then World(Store({row}, both, []), map[0 := up0, 1 := up1], {row})
    else if n == 6 then World(Store({}, both, [m0]), map[1 := up1], {row})
    else World(Store({}, both, [m0, m1]), map[], {row})
  }

  lemma EarlyStagesFollow(n: nat, row: Row, c: int)
    requires c == row.ts + 1 && n < 4
    ensures Can(Stage(n, row, c), TwoSweeps(row, c)[n], 10) && Tame(Stage(n, row, c), TwoSweeps(row, c)[n], 10)
    ensures Do(Stage(n, row, c), TwoSweeps(row, c)[n], 10) == Stage(n + 1, row, c)
  {
    assert Expired({row}, c) == {row} && Members([row]) == {row};
    assert IsBatch([row], {row}, c, 10);
  }

  lemma LateStagesFollow(n: nat, row: Row, c: int)
    requires c == row.ts + 1 && 4 <= n < 7
    ensures Can(Stage(n, row, c), TwoSweeps(row, c)[n], 10) && Tame(Stage(n, row, c), TwoSweeps(row, c)[n], 10)
    ensures Do(Stage(n, row, c), TwoSweeps(row, c)[n], 10) == Stage(n + 1, row, c)
  {
    assert Expired({row}, c) == {row} && Expired({}, c) == {};
  }

  lemma {:induction false} StagesRun(n: nat, row: Row, c: int)
    requires c == row.ts + 1 && n <= 7
    ensures Run(Stage(n, row, c), TwoSweeps(row, c)[n..], 10, false)
    ensures End(Stage(n, row, c), TwoSweeps(row, c)[n..], 10, false) == Stage(7, row, c)
    decreases 7 - n
  {
    var steps := TwoSweeps(row, c);
    if n < 7 {
      if n < 4 {
        EarlyStagesFollow(n, row, c);
      } else {
        LateStagesFollow(n, row, c);
      }
      StagesRun(n + 1, row, c);
      assert steps[n..][0] == steps[n] && steps[n..][1..] == steps[n + 1..];
    }
  }

  /** It does happen: from the start, two sweeps at once can list one row twice, with two row counts for one
      deletion. */
  lemma ConcurrentSweepsCanListTwice(row: Row)
    ensures exists steps: seq<Step> ::
              Run(START, steps, 10, false) && RowsListed(End(START, steps, 10, false).store.manifests) == 2
              && End(START, steps, 10, false).inserted == {row}
  {
    var c := row.ts + 1;
    StagesRun(0, row, c);
    var steps := TwoSweeps(row, c);
    assert steps[0..] == steps;
    var m0, m1 := ManifestOf(0, [row]), ManifestOf(1, [row]);
    assert RowsListed([m0]) == 1 by { assert [m0][..0] == []; }
    assert [m0, m1][..1] == [m0];
    assert RowsListed(End(START, steps, 10, false).store.manifests) == 2;
  }
}
