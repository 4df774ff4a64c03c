/** Moving expired rows of one table from Postgres to the object store: read a batch, upload it,
    then delete and list it in one transaction. Times are in milliseconds, counted from Go's zero time. */
module Archiver {
  import opened Common

  datatype Row = Row(id: string, ts: int, raw: string)

  datatype Manifest = Manifest(key: nat, rowCount: nat, bytes: nat, minTs: int, maxTs: int)

  /** The table, the uploaded objects by key, and the manifest list that makes objects findable. */
  datatype Store = Store(pg: set<Row>, objects: map<nat, seq<Row>>, manifests: seq<Manifest>)

  const BATCH_LIMIT: nat := 100000

  // ---------- One NDJSON object ----------

  function Ndjson(rows: seq<Row>): string {
    if rows == [] then "" else Ndjson(rows[..|rows| - 1]) + rows[|rows| - 1].raw + "\n"
  }

  /** Reading an object back: the text of each line, newlines dropped. */
  function Lines(text: string, line: string): seq<string>
    decreases |text|
  {
    if text == "" then []
    else if text[0] == '\n' then [line] + Lines(text[1..], "")
    else Lines(text[1..], line + [text[0]])
  }

  lemma {:induction false} LinesOfOne(raw: string, rest: string, line: string)
    requires '\n' !in raw
    ensures Lines(raw + "\n" + rest, line) == [line + raw] + Lines(rest, "")
  {
    var text := raw + "\n" + rest;
    if raw == "" {
      assert text[1..] == rest && line + raw == line;
    } else {
      assert text[1..] == raw[1..] + "\n" + rest;
      LinesOfOne(raw[1..], rest, line + [raw[0]]);
      assert line + [raw[0]] + raw[1..] == line + raw;
    }
  }

  function RawLines(rows: seq<Row>): seq<string> { seq(|rows|, i requires 0 <= i < |rows| => rows[i].raw) }

  lemma {:induction false} LinesOfMany(rows: seq<Row>, rest: string)
    requires forall r | r in rows :: '\n' !in r.raw
    ensures Lines(Ndjson(rows) + rest, "") == RawLines(rows) + Lines(rest, "")
  {
    if rows != [] {
      var n := |rows| - 1;
      assert Ndjson(rows) + rest == Ndjson(rows[..n]) + (rows[n].raw + "\n" + rest);
      LinesOfMany(rows[..n], rows[n].raw + "\n" + rest);
      LinesOfOne(rows[n].raw, rest, "");
      assert "" + rows[n].raw == rows[n].raw;
      assert RawLines(rows) == RawLines(rows[..n]) + [rows[n].raw];
    } else {
      assert Ndjson(rows) + rest == rest;
    }
  }

  /** An archived object gives back every row, in order. */
  lemma NdjsonRoundTrip(rows: seq<Row>)
    requires forall r | r in rows :: '\n' !in r.raw
    ensures Lines(Ndjson(rows), "") == RawLines(rows)
  {
    LinesOfMany(rows, "");
    assert Ndjson(rows) + "" == Ndjson(rows);
  }

  // ---------- The three effects of a sweep ----------

  ghost function Expired(pg: set<Row>, cutoff: int): set<Row> { set r | r in pg && r.ts < cutoff }

  ghost function Least(a: nat, b: nat): nat { if a <= b then a else b }

  /** What the limited, ordered SELECT may return. */
  ghost predicate IsBatch(batch: seq<Row>, pg: set<Row>, cutoff: int, limit: nat) {
    && Distinct(batch) && Members(batch) <= Expired(pg, cutoff)
    && |batch| == Least(limit, |Expired(pg, cutoff)|)
    && (forall i, j | 0 <= i < j < |batch| :: batch[i].ts <= batch[j].ts)
    && (forall r, s | r in batch && s in Expired(pg, cutoff) && s !in batch :: r.ts <= s.ts)
  }

  /** The greatest timestamp, but never before the zero time the row loop starts from. */
  ghost function MaxTs(batch: seq<Row>): int {
    if batch == [] || batch[|batch| - 1].ts < 0 then 0 else batch[|batch| - 1].ts
  }

  /** The least and the greatest timestamp of the rows, the latter not before the zero time. */
  ghost predicate Spans(rows: seq<Row>, minTs: int, maxTs: int) {
    && maxTs >= 0 && (forall r | r in rows :: r.ts <= maxTs)
    && (maxTs == 0 || exists r :: r in rows && r.ts == maxTs)
    && (rows != [] ==> (forall r | r in rows :: minTs <= r.ts) && exists r :: r in rows && r.ts == minTs)
  }

  lemma MaxTsSpans(rows: seq<Row>)
    requires forall i, j | 0 <= i < j < |rows| :: rows[i].ts <= rows[j].ts
    ensures Spans(rows, if rows == [] then 0 else rows[0].ts, MaxTs(rows))
  {
    if rows != [] {
      assert rows[0] in rows && rows[|rows| - 1] in rows;
    }
  }

  ghost function Put(s: Store, key: nat, batch: seq<Row>): Store { s.(objects := s.objects[key := batch]) }

  ghost function ManifestOf(key: nat, batch: seq<Row>): Manifest
    requires batch != []
  {
    Manifest(key, |batch|, |Ndjson(batch)|, batch[0].ts, MaxTs(batch))
  }

  /** The transaction: the DELETE is by cutoff alone, the manifest describes the batch. */
  ghost function Transact(s: Store, cutoff: int, key: nat, batch: seq<Row>): Store
    requires batch != []
  {
    s.(pg := s.pg - Expired(s.pg, cutoff),
       manifests := s.manifests + [ManifestOf(key, batch)])
  }

  datatype Result = Skipped | Nothing | QueryFailed | UploadFailed | TxFailed | Archived(rowCount: nat, key: nat)

  /** How a sweep ends, given how far it gets. */
  ghost function ResultOf(active: bool, answer: Option<seq<Row>>, key: nat, uploadOk: bool, txOk: bool): Result {
    if !active then Skipped
    else if answer.None? then QueryFailed
    else if answer.value == [] then Nothing
    else if !uploadOk then UploadFailed
    else if !txOk then TxFailed
    else Archived(|answer.value|, key)
  }

  /** What it leaves: only an upload or more changes anything. */
  ghost function AfterSweep(s: Store, cutoff: int, answer: Option<seq<Row>>, key: nat, res: Result): Store
    requires res.TxFailed? || res.Archived? ==> answer.Some? && answer.value != []
  {
    match res
    case TxFailed => Put(s, key, answer.value)
    case Archived(_, _) => Transact(Put(s, key, answer.value), cutoff, key, answer.value)
    case _ => s
  }

  class Tables {
    var pg: set<Row>
    var objects: map<nat, string>
    var manifests: seq<Manifest>
    ghost var contents: map<nat, seq<Row>>

    ghost predicate Valid()
      reads this
    {
      objects.Keys == contents.Keys && forall k | k in objects :: objects[k] == Ndjson(contents[k])
    }

    ghost function View(): Store
      reads this
    {
      Store(pg, contents, manifests)
    }

    constructor ()
      ensures Valid() && View() == Store({}, map[], [])
    {
      pg, objects, manifests, contents := {}, map[], [], map[];
    }

    /** The row loop. Rows come ordered by timestamp. */
    static method Encode(rows: seq<Row>) returns (buf: string, count: nat, minTs: int, maxTs: int)
      requires forall i, j | 0 <= i < j < |rows| :: rows[i].ts <= rows[j].ts
      ensures buf == Ndjson(rows) && count == |rows| && maxTs == MaxTs(rows)
      ensures rows != [] ==> minTs == rows[0].ts
      ensures Spans(rows, minTs, maxTs)
    {
      buf, count, minTs, maxTs := "", 0, 0, 0;
      while count < |rows|
        invariant 0 <= count <= |rows|
        invariant buf == Ndjson(rows[..count]) && maxTs == MaxTs(rows[..count])
        invariant count > 0 ==> minTs == rows[0].ts
      {
        var row := rows[count];
        assert rows[..count + 1][..count] == rows[..count];
        if count == 0 || row.ts < minTs {
          minTs := row.ts;
        }
        if row.ts > maxTs {
          maxTs := row.ts;
        }
        buf := buf + row.raw;
        buf := buf + "\n";
        count := count + 1;
      }
      assert rows[..count] == rows;
      MaxTsSpans(rows);
    }

    method PutObject(key: nat, buf: string, ghost rows: seq<Row>)
      requires Valid() && buf == Ndjson(rows)
      modifies this`objects, this`contents
      ensures Valid() && View() == Put(old(View()), key, rows)
    {
      objects := objects[key := buf];
      contents := contents[key := rows];
    }

    /** The transaction, when it commits. */
    method DeleteAndList(cutoff: int, m: Manifest)
      requires Valid()
      modifies this`pg, this`manifests
      ensures Valid()
      ensures View() == old(View()).(pg := old(pg) - Expired(old(pg), cutoff), manifests := old(manifests) + [m])
    {
      pg := set r | r in pg && r.ts >= cutoff;
      assert pg == old(pg) - Expired(old(pg), cutoff);
      manifests := manifests + [m];
    }

    /** One sweep of the table, with what the outside world answers: the query's rows, if it succeeds,
        and whether the upload and the transaction do. */
    method ArchiveTable(blobEnabled: bool, days: int, now: int, answer: Option<seq<Row>>,
                        key: nat, uploadOk: bool, txOk: bool) returns (res: Result)
      requires Valid()
      requires answer.Some? ==> IsBatch(answer.value, pg, now - days * 86400000, BATCH_LIMIT)
      modifies this
      ensures Valid()
      ensures res == ResultOf(blobEnabled && days > 0, answer, key, uploadOk, txOk)
      ensures View() == AfterSweep(old(View()), now - days * 86400000, answer, key, res)
      ensures res.Nothing? ==> Expired(pg, now - days * 86400000) == {}
      ensures res.Skipped? <==> !blobEnabled || days <= 0
      ensures res.QueryFailed? <==> blobEnabled && days > 0 && answer.None?
      ensures res.Archived? <==>
                blobEnabled && days > 0 && answer.Some? && answer.value != [] && uploadOk && txOk
      ensures Keeps(old(View()), View(), now - days * 86400000, answer, key, res)
    {
      ghost var before := View();
      SweepMeans(before, blobEnabled && days > 0, now - days * 86400000, answer, key, uploadOk, txOk);
      if !blobEnabled {
        return Skipped;
      }
      if days <= 0 {
        return Skipped;
      }
      var cutoff := now - days * 86400000;
      if answer.None? {
        return QueryFailed;
      }
      var rows := answer.value;
      var buf, count, minTs, maxTs := Encode(rows);
      if count == 0 {
        return Nothing;
      }
      if !uploadOk {
        return UploadFailed;
      }
      PutObject(key, buf, rows);
      if !txOk {
        return TxFailed;
      }
      DeleteAndList(cutoff, Manifest(key, count, |buf|, minTs, maxTs));
      res := Archived(count, key);
    }
  }

  // ---------- What a sweep is for ----------

  /** The new manifest's key holds the batch, and the manifest says how much and from when to when. */
  ghost predicate Archives(s: Store, t: Store, key: nat, batch: seq<Row>) {
    && |t.manifests| == |s.manifests| + 1 && t.manifests[..|s.manifests|] == s.manifests
    && t.objects == s.objects[key := batch]
    && var m := t.manifests[|s.manifests|];
       m.key == key && m.rowCount == |batch| && m.bytes == |Ndjson(batch)| && Spans(batch, m.minTs, m.maxTs)
  }

  /** The steps one sweep takes alone, by how it ends. */
  ghost function StepsOf(res: Result, cutoff: int, answer: Option<seq<Row>>, key: nat): seq<Step> {
    if answer.None? then []
    else
      match res
      case UploadFailed => [Read(0, cutoff, answer.value), GiveUp(0)]
      case TxFailed => [Read(0, cutoff, answer.value), Upload(0, key), GiveUp(0)]
      case Archived(_, _) => [Read(0, cutoff, answer.value), Upload(0, key), Commit(0)]
      case _ => []
  }

  /** The steps can happen one after another, and lead from `w` to `v`. */
  ghost predicate Leads(w: World, steps: seq<Step>, v: World)
    decreases |steps|
  {
    if steps == [] then v == w
    else Can(w, steps[0], BATCH_LIMIT) && Leads(Do(w, steps[0], BATCH_LIMIT), steps[1..], v)
  }

  ghost predicate ActsAs(s: Store, steps: seq<Step>, t: Store) {
    Leads(World(s, map[], {}), steps, World(t, map[], {}))
  }

  /** Unless a sweep archives, table and list stay and no row is lost; if it does, exactly the expired rows leave the
      table, and the one new manifest leads to the batch. Either way it is a run of the protocol's own steps. */
  ghost predicate Keeps(s: Store, t: Store, cutoff: int, answer: Option<seq<Row>>, key: nat, res: Result) {
    && (!res.Archived? ==> t.pg == s.pg && t.manifests == s.manifests)
    && (!res.Archived? && key !in s.objects && KeysStored(s) ==> forall r | Safe(s, r) :: Safe(t, r))
    && (res.Archived? ==> t.pg == set r | r in s.pg && r.ts >= cutoff)
    && (res.Archived? ==> answer.Some? && Archives(s, t, key, answer.value))
    && (key !in s.objects ==> ActsAs(s, StepsOf(res, cutoff, answer, key), t))
  }

  lemma LeadsInThree(w: World, a: Step, b: Step, c: Step, v: World)
    requires Can(w, a, BATCH_LIMIT) && Can(Do(w, a, BATCH_LIMIT), b, BATCH_LIMIT)
    requires var x := Do(Do(w, a, BATCH_LIMIT), b, BATCH_LIMIT);
             Can(x, c, BATCH_LIMIT) && Do(x, c, BATCH_LIMIT) == v
    ensures Leads(w, [a, b, c], v)
  {
    LeadsInTwo(Do(w, a, BATCH_LIMIT), b, c, v);
    assert [a, b, c][1..] == [b, c] && [a, b, c][0] == a;
  }

  lemma LeadsInTwo(w: World, a: Step, b: Step, v: World)
    requires Can(w, a, BATCH_LIMIT) && Can(Do(w, a, BATCH_LIMIT), b, BATCH_LIMIT)
    requires Do(Do(w, a, BATCH_LIMIT), b, BATCH_LIMIT) == v
    ensures Leads(w, [a, b], v)
  {
    assert [a, b][1..] == [b] && [b][1..] == [];
  }

  /** Each ending is the end of a run of the protocol's own steps. */
  lemma SweepIsARun(s: Store, active: bool, cutoff: int, answer: Option<seq<Row>>, key: nat, uploadOk: bool, txOk: bool)
    requires answer.Some? ==> IsBatch(answer.value, s.pg, cutoff, BATCH_LIMIT)
    requires key !in s.objects
    ensures var res := ResultOf(active, answer, key, uploadOk, txOk);
            ActsAs(s, StepsOf(res, cutoff, answer, key), AfterSweep(s, cutoff, answer, key, res))
  {
    var res := ResultOf(active, answer, key, uploadOk, txOk);
    var w, v := World(s, map[], {}), World(AfterSweep(s, cutoff, answer, key, res), map[], {});
    if active && answer.Some? && answer.value != [] {
      var read := Read(0, cutoff, answer.value);
      var x := Do(w, read, BATCH_LIMIT);
      assert x.sweeps - {0} == map[];
      if res.UploadFailed? {
        LeadsInTwo(w, read, GiveUp(0), v);
      } else {
        var y := Do(x, Upload(0, key), BATCH_LIMIT);
        assert y.sweeps - {0} == map[];
        LeadsInThree(w, read, Upload(0, key), if txOk then Commit(0) else GiveUp(0), v);
      }
    }
  }

  lemma SweepMeans(s: Store, active: bool, cutoff: int, answer: Option<seq<Row>>, key: nat, uploadOk: bool, txOk: bool)
    requires answer.Some? ==> IsBatch(answer.value, s.pg, cutoff, BATCH_LIMIT)
    ensures var res := ResultOf(active, answer, key, uploadOk, txOk);
            var t := AfterSweep(s, cutoff, answer, key, res);
            Keeps(s, t, cutoff, answer, key, res)
  {
    var res := ResultOf(active, answer, key, uploadOk, txOk);
    var t := AfterSweep(s, cutoff, answer, key, res);
    if !res.Archived? && key !in s.objects && KeysStored(s) {
      forall r | Safe(s, r) ensures Safe(t, r) {
        if res.TxFailed? {
          ListedAfterPut(s, key, answer.value, r);
        }
      }
    }
    if res.Archived? {
      MaxTsSpans(answer.value);
    }
    if key !in s.objects {
      SweepIsARun(s, active, cutoff, answer, key, uploadOk, txOk);
    }
  }

  // ---------- Exactly when one sweep loses nothing ----------

  ghost predicate ListedAt(s: Store, i: nat, r: Row)
    requires i < |s.manifests|
  {
    s.manifests[i].key in s.objects && r in s.objects[s.manifests[i].key]
  }

  ghost predicate Listed(s: Store, r: Row) {
    exists i :: 0 <= i < |s.manifests| && ListedAt(s, i, r)
  }

  ghost predicate Safe(s: Store, r: Row) { r in s.pg || Listed(s, r) }

  /** A sweep with rows inserted between its read and its transaction; an empty batch ends it at once. */
  ghost function Sweep(s: Store, cutoff: int, key: nat, batch: seq<Row>, inserts: set<Row>): Store {
    var seen := Put(s, key, batch);
    if batch == [] then s.(pg := s.pg + inserts)
    else Transact(seen.(pg := seen.pg + inserts), cutoff, key, batch)
  }

  lemma BatchCoversExpired(batch: seq<Row>, pg: set<Row>, cutoff: int, limit: nat)
    requires IsBatch(batch, pg, cutoff, limit)
    ensures Members(batch) == Expired(pg, cutoff) <==> |Expired(pg, cutoff)| <= limit
  {
    MembersOfDistinct(batch);
    var e := Expired(pg, cutoff);
    assert |e| == |Members(batch)| + |e - Members(batch)| by { assert e == Members(batch) + (e - Members(batch)); }
    if |e| <= limit {
      assert e - Members(batch) == {};
    }
  }

  lemma ListedAfterTransact(s: Store, cutoff: int, key: nat, batch: seq<Row>, r: Row)
    requires batch != [] && key in s.objects && s.objects[key] == batch
    ensures Listed(Transact(s, cutoff, key, batch), r) <==> Listed(s, r) || r in batch
  {
    var t, n := Transact(s, cutoff, key, batch), |s.manifests|;
    assert ListedAt(t, n, r) <==> r in batch;
    assert forall i | 0 <= i < n :: ListedAt(t, i, r) == ListedAt(s, i, r);
  }

  lemma ListedIgnoresTable(s: Store, t: Store, r: Row)
    requires s.objects == t.objects && s.manifests == t.manifests
    ensures Listed(t, r) <==> Listed(s, r)
  {
    assert forall i | 0 <= i < |s.manifests| :: ListedAt(t, i, r) == ListedAt(s, i, r);
  }

  lemma ListedAfterPut(s: Store, key: nat, batch: seq<Row>, r: Row)
    requires key !in s.objects && forall m | m in s.manifests :: m.key in s.objects
    ensures Listed(Put(s, key, batch), r) <==> Listed(s, r)
  {
    var t := Put(s, key, batch);
    assert forall i | 0 <= i < |s.manifests| :: s.manifests[i] in s.manifests;
    assert forall i | 0 <= i < |s.manifests| :: ListedAt(t, i, r) == ListedAt(s, i, r);
  }

  /** Nothing is lost if and only if nothing had expired, or the expired rows fit the batch limit and
      no row inserted meanwhile is already older than the cutoff. */
  lemma SweepLosesNothingIff(s: Store, cutoff: int, key: nat, batch: seq<Row>, inserts: set<Row>, limit: nat)
    requires IsBatch(batch, s.pg, cutoff, limit) && limit > 0 && key !in s.objects && inserts !! s.pg
    requires forall m | m in s.manifests :: m.key in s.objects
    requires forall r | r in s.pg + inserts :: !Listed(s, r)
    ensures (forall r | r in s.pg + inserts :: Safe(Sweep(s, cutoff, key, batch, inserts), r)) <==>
            Expired(s.pg, cutoff) == {} ||
            (|Expired(s.pg, cutoff)| <= limit && forall r | r in inserts :: r.ts >= cutoff)
  {
    var t := Sweep(s, cutoff, key, batch, inserts);
    BatchCoversExpired(batch, s.pg, cutoff, limit);
    var e := Expired(s.pg, cutoff);
    if batch == [] {
      assert e == {};
    } else {
      forall r | r in s.pg + inserts ensures Safe(t, r) <==> r.ts >= cutoff || r in batch {
        ListedAfterPut(s, key, batch, r);
        var seen := Put(s, key, batch);
        seen := seen.(pg := seen.pg + inserts);
        ListedIgnoresTable(Put(s, key, batch), seen, r);
        ListedAfterTransact(seen, cutoff, key, batch, r);
      }
      assert batch[0] in Members(batch);
      assert forall r | r in batch :: r in Members(batch) && r in s.pg;
      if |e| > limit {
        var r :| r in e && r !in Members(batch);
        assert !Safe(t, r);
      }
      assert forall r | r in inserts :: r !in batch;
      assert forall r | r in inserts :: Safe(t, r) <==> r.ts >= cutoff;
    }
  }

  // ---------- Sweeps interleaved with inserts and with each other ----------

  /** A sweep that holds a batch, before or after its upload. */
  datatype Phase =
    | HasBatch(cutoff: int, batch: seq<Row>)
    | Uploaded(cutoff: int, batch: seq<Row>, key: nat)

  /** `inserted` remembers every row ever written to the table. */
  datatype World = World(store: Store, sweeps: map<nat, Phase>, inserted: set<Row>)

  datatype Step =
    | Insert(row: Row)
    | Read(id: nat, cutoff: int, batch: seq<Row>)
    | Upload(id: nat, key: nat)
    | UploadReportedLost(id: nat, key: nat)  // stored, but the sweep sees an error and gives up
    | Commit(id: nat)                        // the transaction takes effect, whether or not the sweep learns of it
    | GiveUp(id: nat)                        // any failure or crash before the commit

  const START := World(Store({}, map[], []), map[], {})

  /** When a step can happen. Object keys carry a nanosecond clock, so an upload never meets a key in use. */
  ghost predicate Can(w: World, step: Step, limit: nat) {
    match step
    case Insert(row) => row !in w.inserted
    case Read(id, cutoff, batch) => id !in w.sweeps && batch != [] && IsBatch(batch, w.store.pg, cutoff, limit)
    case Upload(id, key) => id in w.sweeps && w.sweeps[id].HasBatch? && key !in w.store.objects
    case UploadReportedLost(id, key) => id in w.sweeps && w.sweeps[id].HasBatch? && key !in w.store.objects
    case Commit(id) => id in w.sweeps && w.sweeps[id].Uploaded? && w.sweeps[id].batch != []
    case GiveUp(id) => id in w.sweeps
  }

  ghost function Do(w: World, step: Step, limit: nat): World
    requires Can(w, step, limit)
  {
    match step
    case Insert(row) =>
      w.(store := w.store.(pg := w.store.pg + {row}), inserted := w.inserted + {row})
    case Read(id, cutoff, batch) =>
      w.(sweeps := w.sweeps[id := HasBatch(cutoff, batch)])
    case Upload(id, key) =>
      var p := w.sweeps[id];
      w.(store := Put(w.store, key, p.batch), sweeps := w.sweeps[id := Uploaded(p.cutoff, p.batch, key)])
    case UploadReportedLost(id, key) =>
      w.(store := Put(w.store, key, w.sweeps[id].batch), sweeps := w.sweeps - {id})
    case Commit(id) =>
      var p := w.sweeps[id];
      w.(store := Transact(w.store, p.cutoff, p.key, p.batch), sweeps := w.sweeps - {id})
    case GiveUp(id) =>
      w.(sweeps := w.sweeps - {id})
  }

  /** What the guarantee rests on: a read finds at most the batch limit expired, and no row is
      inserted that a sweep already under way counts as expired. */
  ghost predicate Tame(w: World, step: Step, limit: nat) {
    match step
    case Insert(row) => forall id | id in w.sweeps :: w.sweeps[id].cutoff <= row.ts
    case Read(id, cutoff, batch) => |Expired(w.store.pg, cutoff)| <= limit
    case _ => true
  }

  ghost predicate Run(w: World, steps: seq<Step>, limit: nat, sequential: bool)
    decreases |steps|
  {
    steps != [] ==>
      && Can(w, steps[0], limit) && Tame(w, steps[0], limit)
      && (sequential && steps[0].Read? ==> w.sweeps == map[])
      && Run(Do(w, steps[0], limit), steps[1..], limit, sequential)
  }

  ghost function End(w: World, steps: seq<Step>, limit: nat, sequential: bool): World
    requires Run(w, steps, limit, sequential)
    decreases |steps|
  {
    if steps == [] then w else End(Do(w, steps[0], limit), steps[1..], limit, sequential)
  }

  ghost predicate KeysStored(s: Store) {
    forall m | m in s.manifests :: m.key in s.objects
  }

  ghost predicate SweepSound(s: Store, p: Phase) {
    && p.batch != [] && Expired(s.pg, p.cutoff) <= Members(p.batch)
    && (p.Uploaded? ==> p.key in s.objects && s.objects[p.key] == p.batch)
  }

  ghost predicate NothingLost(w: World) {
    && w.store.pg <= w.inserted
    && KeysStored(w.store)
    && (forall r | r in w.inserted :: Safe(w.store, r))
    && forall id | id in w.sweeps :: SweepSound(w.store, w.sweeps[id])
  }

  lemma StepLosesNothing(w: World, step: Step, limit: nat)
    requires NothingLost(w) && Can(w, step, limit) && Tame(w, step, limit)
    ensures NothingLost(Do(w, step, limit))
  {
    var v := Do(w, step, limit);
    match step
    case Insert(row) =>
      forall r | r in v.inserted ensures Safe(v.store, r) {
        ListedIgnoresTable(w.store, v.store, r);
        assert r in w.inserted ==> Safe(w.store, r);
      }
      assert forall id | id in w.sweeps :: SweepSound(w.store, w.sweeps[id]);
    case Read(id, cutoff, batch) =>
      BatchCoversExpired(batch, w.store.pg, cutoff, limit);
      assert SweepSound(v.store, v.sweeps[id]);
    case Upload(id, key) =>
      PutLosesNothing(w, key, w.sweeps[id].batch);
    case UploadReportedLost(id, key) =>
      PutLosesNothing(w, key, w.sweeps[id].batch);
    case Commit(id) =>
      CommitLosesNothing(w, id, limit);
    case GiveUp(id) =>
  }

  lemma PutLosesNothing(w: World, key: nat, batch: seq<Row>)
    requires NothingLost(w) && key !in w.store.objects
    ensures KeysStored(Put(w.store, key, batch))
    ensures forall r | r in w.inserted :: Safe(Put(w.store, key, batch), r)
    ensures forall id | id in w.sweeps :: SweepSound(Put(w.store, key, batch), w.sweeps[id])
  {
    forall r | r in w.inserted ensures Safe(Put(w.store, key, batch), r) {
      ListedAfterPut(w.store, key, batch, r);
      assert Safe(w.store, r);
    }
    forall id | id in w.sweeps ensures SweepSound(Put(w.store, key, batch), w.sweeps[id]) {
      assert SweepSound(w.store, w.sweeps[id]);
    }
  }

  lemma CommitLosesNothing(w: World, id: nat, limit: nat)
    requires NothingLost(w) && Can(w, Commit(id), limit)
    ensures NothingLost(Do(w, Commit(id), limit))
  {
    var v, p := Do(w, Commit(id), limit), w.sweeps[id];
    assert SweepSound(w.store, p);
    forall r | r in v.inserted ensures Safe(v.store, r) {
      ListedAfterTransact(w.store, p.cutoff, p.key, p.batch, r);
      assert Safe(w.store, r);
      assert r in Expired(w.store.pg, p.cutoff) ==> r in Members(p.batch);
    }
    forall other | other in v.sweeps ensures SweepSound(v.store, v.sweeps[other]) {
      assert SweepSound(w.store, w.sweeps[other]);
    }
  }

  lemma {:induction false} RunLosesNothing(w: World, steps: seq<Step>, limit: nat, sequential: bool)
    requires NothingLost(w) && Run(w, steps, limit, sequential)
    ensures NothingLost(End(w, steps, limit, sequential))
    decreases |steps|
  {
    if steps != [] {
      StepLosesNothing(w, steps[0], limit);
      RunLosesNothing(Do(w, steps[0], limit), steps[1..], limit, sequential);
    }
  }

  /** In every interleaving of sweeps, inserts and failures each row ever inserted is in the table or in a listed
      object. */
  lemma ArchivingLosesNothing(steps: seq<Step>, limit: nat)
    requires Run(START, steps, limit, false)
    ensures var w := End(START, steps, limit, false);
            forall r | r in w.inserted :: r in w.store.pg || Listed(w.store, r)
  {
    RunLosesNothing(START, steps, limit, false);
    var w := End(START, steps, limit, false);
    forall r | r in w.inserted ensures r in w.store.pg || Listed(w.store, r) {
      assert Safe(w.store, r);
    }
  }

  lemma {:induction false} FreshKey(used: set<nat>) returns (key: nat)
    ensures key !in used && forall k | k in used :: k < key
  {
    if used == {} {
      key := 0;
    } else {
      var one :| one in used;
      var above := FreshKey(used - {one});
      key := if one < above then above else one + 1;
      assert forall k | k in used :: k == one || k in used - {one};
    }
  }
}
