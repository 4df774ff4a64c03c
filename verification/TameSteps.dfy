/** Exactly which steps of sweeps and inserts keep every row safe, whatever tame steps follow. */
module TameSteps {
  import opened Archiver
  import opened Common

  /** Objects and batches hold only rows that were inserted, batches only expired ones, and no listed row is
      still in the table. */
  ghost predicate Traced(w: World) {
    && (forall k | k in w.store.objects :: Members(w.store.objects[k]) <= w.inserted)
    && (forall id | id in w.sweeps :: Members(w.sweeps[id].batch) <= w.inserted)
    && (forall id, r | id in w.sweeps && r in w.sweeps[id].batch :: r.ts < w.sweeps[id].cutoff)
    && (forall r | r in w.store.pg :: !Listed(w.store, r))
  }

  lemma ListedWasInserted(w: World, r: Row)
    requires Traced(w) && Listed(w.store, r)
    ensures r in w.inserted
  {
    var i :| 0 <= i < |w.store.manifests| && ListedAt(w.store, i, r);
    assert r in Members(w.store.objects[w.store.manifests[i].key]);
  }

  lemma PutKeepsTraced(w: World, key: nat, batch: seq<Row>)
    requires NothingLost(w) && Traced(w) && key !in w.store.objects && Members(batch) <= w.inserted
    ensures var t := Put(w.store, key, batch); forall k | k in t.objects :: Members(t.objects[k]) <= w.inserted
    ensures forall r | r in w.store.pg :: !Listed(Put(w.store, key, batch), r)
  {
    forall r | r in w.store.pg ensures !Listed(Put(w.store, key, batch), r) {
      ListedAfterPut(w.store, key, batch, r);
    }
  }

  lemma StepKeepsTraced(w: World, step: Step, limit: nat)
    requires NothingLost(w) && Traced(w) && Can(w, step, limit)
    ensures Traced(Do(w, step, limit))
  {
    var v := Do(w, step, limit);
    match step
    case Insert(row) =>
      forall r | r in v.store.pg ensures !Listed(v.store, r) {
        ListedIgnoresTable(w.store, v.store, r);
        if Listed(w.store, r) {
          ListedWasInserted(w, r);
        }
      }
    case Read(id, cutoff, batch) =>
      assert Members(batch) <= Expired(w.store.pg, cutoff);
      assert forall r | r in batch :: r in Members(batch);
    case Upload(id, key) => PutKeepsTraced(w, key, w.sweeps[id].batch);
    case UploadReportedLost(id, key) => PutKeepsTraced(w, key, w.sweeps[id].batch);
    case Commit(id) =>
      var p := w.sweeps[id];
      assert SweepSound(w.store, p);
      forall r | r in v.store.pg ensures !Listed(v.store, r) {
        ListedAfterTransact(w.store, p.cutoff, p.key, p.batch, r);
      }
    case GiveUp(id) =>
  }

  lemma {:induction false} RunKeepsTraced(w: World, steps: seq<Step>, limit: nat)
    requires NothingLost(w) && Traced(w) && Run(w, steps, limit, false)
    ensures NothingLost(End(w, steps, limit, false)) && Traced(End(w, steps, limit, false))
    decreases |steps|
  {
    if steps != [] {
      StepLosesNothing(w, steps[0], limit);
      StepKeepsTraced(w, steps[0], limit);
      RunKeepsTraced(Do(w, steps[0], limit), steps[1..], limit);
    }
  }

  ghost predicate AllSafe(w: World) { forall r | r in w.inserted :: Safe(w.store, r) }

  /** A sweep that will delete an unlisted row it has not read. */
  ghost predicate Dooms(w: World, id: nat, r: Row) {
    && id in w.sweeps && w.sweeps[id].batch != [] && r in w.inserted && r.ts < w.sweeps[id].cutoff
    && r !in w.sweeps[id].batch && !Listed(w.store, r) && KeysStored(w.store)
    && (w.sweeps[id].Uploaded? ==>
          w.sweeps[id].key in w.store.objects && w.store.objects[w.sweeps[id].key] == w.sweeps[id].batch)
  }

  lemma CommitLoses(w: World, id: nat, r: Row, limit: nat)
    requires Dooms(w, id, r) && w.sweeps[id].Uploaded?
    ensures Run(w, [Commit(id)], limit, false) && !AllSafe(End(w, [Commit(id)], limit, false))
  {
    var p, v := w.sweeps[id], Do(w, Commit(id), limit);
    ListedAfterTransact(w.store, p.cutoff, p.key, p.batch, r);
    assert !Safe(v.store, r);
    assert [Commit(id)][1..] == [];
    assert End(v, [], limit, false) == v;
  }

  lemma DoomedRowIsLost(w: World, id: nat, r: Row, limit: nat) returns (steps: seq<Step>)
    requires Dooms(w, id, r)
    ensures Run(w, steps, limit, false) && !AllSafe(End(w, steps, limit, false))
  {
    if w.sweeps[id].Uploaded? {
      CommitLoses(w, id, r, limit);
      steps := [Commit(id)];
    } else {
      var key := FreshKey(w.store.objects.Keys);
      var v := Do(w, Upload(id, key), limit);
      ListedAfterPut(w.store, key, w.sweeps[id].batch, r);
      CommitLoses(v, id, r, limit);
      steps := [Upload(id, key)] + [Commit(id)];
      assert steps[0] == Upload(id, key) && steps[1..] == [Commit(id)];
    }
  }

  lemma UntameStepDooms(w: World, step: Step, limit: nat) returns (id: nat, r: Row)
    requires NothingLost(w) && Traced(w) && Can(w, step, limit) && !Tame(w, step, limit)
    ensures Dooms(Do(w, step, limit), id, r)
  {
    var v := Do(w, step, limit);
    match step
    case Insert(row) =>
      id :| id in w.sweeps && w.sweeps[id].cutoff > row.ts;
      r := row;
      assert SweepSound(w.store, w.sweeps[id]);
      assert r !in Members(w.sweeps[id].batch);
      ListedIgnoresTable(w.store, v.store, r);
      if Listed(w.store, r) {
        ListedWasInserted(w, r);
      }
    case Read(i, cutoff, batch) =>
      id := i;
      BatchCoversExpired(batch, w.store.pg, cutoff, limit);
      r :| r in Expired(w.store.pg, cutoff) && r !in Members(batch);
  }

  /** Exactly which steps may happen: in any state that tame steps lead to, no tame continuation of a step that
      can happen loses a row, if and only if the step is tame itself. */
  lemma TameStepIsSafeIff(steps: seq<Step>, step: Step, limit: nat)
    requires Run(START, steps, limit, false) && Can(End(START, steps, limit, false), step, limit)
    ensures var w := End(START, steps, limit, false);
            var v := Do(w, step, limit);
            (forall more: seq<Step> | Run(v, more, limit, false) :: AllSafe(End(v, more, limit, false)))
            <==> Tame(w, step, limit)
  {
    RunKeepsTraced(START, steps, limit);
    var w := End(START, steps, limit, false);
    var v := Do(w, step, limit);
    if Tame(w, step, limit) {
      StepLosesNothing(w, step, limit);
      forall more: seq<Step> | Run(v, more, limit, false) ensures AllSafe(End(v, more, limit, false)) {
        RunLosesNothing(v, more, limit, false);
      }
    } else {
      var id, r := UntameStepDooms(w, step, limit);
      var more := DoomedRowIsLost(v, id, r, limit);
    }
  }
}
