/** One concurrency level of the benchmark: a semaphore, one goroutine a request, counters under a mutex. */
module LoadRunner {
  import opened Common

  datatype Finish = Stop | Length | Other

  /** What one request reports. */
  datatype Result = Result(failed: bool, totalMs: real, ttftMs: real, tpotMs: real, inputTokens: real,
                           outputTokens: real, finish: Finish, safetyPass: bool, qualityPass: bool,
                           hasReference: bool, referenceOverlap: real, referencePass: bool)

  datatype Class = Class(requests: nat, errors: nat, latencies: seq<real>, ttfts: seq<real>, tpots: seq<real>,
                         outputTokens: real)

  /** What is measured of the requests that did not fail. */
  datatype Samples = Samples(latencies: seq<real>, ttfts: seq<real>, tpots: seq<real>, inTokSum: real, outTokSum: real)

  /** How their answers were judged. */
  datatype Flags = Flags(refCount: nat, referenceOverlaps: seq<real>, refPassCount: nat, completedCount: nat,
                         truncatedCount: nat, safetyFailCount: nat, qualityPassCount: nat)

  datatype Tally = Tally(okCount: nat, errCount: nat, samples: Samples, flags: Flags, classes: map<int, Class>)

  const ZERO := Tally(0, 0, Samples([], [], [], 0.0, 0.0), Flags(0, [], 0, 0, 0, 0, 0), map[])

  function ClassOf(classes: map<int, Class>, c: int): Class {
    if c in classes then classes[c] else Class(0, 0, [], [], [], 0.0)
  }

  ghost function ClassAfter(k: Class, r: Result): Class {
    if r.failed then k.(requests := k.requests + 1, errors := k.errors + 1)
    else Class(k.requests + 1, k.errors, k.latencies + [r.totalMs], k.ttfts + [r.ttftMs], k.tpots + [r.tpotMs],
               k.outputTokens + r.outputTokens)
  }

  /** First-token and per-token times are kept only if there were any. */
  function IfAny(x: real): seq<real> { if x > 0.0 then [x] else [] }

  ghost function SamplesAfter(s: Samples, r: Result): Samples {
    Samples(s.latencies + [r.totalMs], s.ttfts + IfAny(r.ttftMs), s.tpots + IfAny(r.tpotMs),
            s.inTokSum + r.inputTokens, s.outTokSum + r.outputTokens)
  }

  ghost function FlagsAfter(f: Flags, r: Result): Flags {
    Flags(f.refCount + One(r.hasReference),
          f.referenceOverlaps + (if r.hasReference then [r.referenceOverlap] else []),
          f.refPassCount + One(r.hasReference && r.referencePass),
          f.completedCount + One(r.finish.Stop?), f.truncatedCount + One(r.finish.Length?),
          f.safetyFailCount + One(!r.safetyPass), f.qualityPassCount + One(r.qualityPass))
  }

  /** The critical section. */
  ghost function Counted(t: Tally, c: int, r: Result): Tally {
    var classes := t.classes[c := ClassAfter(ClassOf(t.classes, c), r)];
    if r.failed then t.(errCount := t.errCount + 1, classes := classes)
    else Tally(t.okCount + 1, t.errCount, SamplesAfter(t.samples, r), FlagsAfter(t.flags, r), classes)
  }

  class Counters {
    var okCount: nat
    var errCount: nat
    var latencies: seq<real>
    var ttfts: seq<real>
    var tpots: seq<real>
    var inTokSum: real
    var outTokSum: real
    var refCount: nat
    var referenceOverlaps: seq<real>
    var refPassCount: nat
    var completedCount: nat
    var truncatedCount: nat
    var safetyFailCount: nat
    var qualityPassCount: nat
    var classes: map<int, Class>

    ghost function SamplesView(): Samples
      reads this
    {
      Samples(latencies, ttfts, tpots, inTokSum, outTokSum)
    }

    ghost function FlagsView(): Flags
      reads this
    {
      Flags(refCount, referenceOverlaps, refPassCount, completedCount, truncatedCount, safetyFailCount,
            qualityPassCount)
    }

    ghost function View(): Tally
      reads this
    {
      Tally(okCount, errCount, SamplesView(), FlagsView(), classes)
    }

    constructor ()
      ensures View() == ZERO
    {
      okCount, errCount, latencies, ttfts, tpots, inTokSum, outTokSum := 0, 0, [], [], [], 0.0, 0.0;
      refCount, referenceOverlaps, refPassCount := 0, [], 0;
      completedCount, truncatedCount, safetyFailCount, qualityPassCount := 0, 0, 0, 0;
      classes := map[];
    }

    method AddSamples(res: Result)
      modifies this`latencies, this`ttfts, this`tpots, this`inTokSum, this`outTokSum
      ensures SamplesView() == SamplesAfter(old(SamplesView()), res)
    {
      latencies := latencies + [res.totalMs];
      if res.ttftMs > 0.0 {
        ttfts := ttfts + [res.ttftMs];
      }
      if res.tpotMs > 0.0 {
        tpots := tpots + [res.tpotMs];
      }
      inTokSum := inTokSum + res.inputTokens;
      outTokSum := outTokSum + res.outputTokens;
    }

    method CountFlags(res: Result)
      modifies this`refCount, this`referenceOverlaps, this`refPassCount, this`completedCount, this`truncatedCount,
               this`safetyFailCount, this`qualityPassCount
      ensures FlagsView() == FlagsAfter(old(FlagsView()), res)
    {
      if res.hasReference {
        refCount := refCount + 1;
        referenceOverlaps := referenceOverlaps + [res.referenceOverlap];
        if res.referencePass {
          refPassCount := refPassCount + 1;
        }
      }
      if res.finish.Stop? {
        completedCount := completedCount + 1;
      }
      if res.finish.Length? {
        truncatedCount := truncatedCount + 1;
      }
      if !res.safetyPass {
        safetyFailCount := safetyFailCount + 1;
      }
      if res.qualityPass {
        qualityPassCount := qualityPassCount + 1;
      }
    }

    /** The class's entry, made on its first request, counts the request and its error or its samples. */
    method RecordClass(contextLength: int, res: Result)
      modifies this`classes
      ensures classes == old(classes)[contextLength := ClassAfter(ClassOf(old(classes), contextLength), res)]
    {
      var k := ClassOf(classes, contextLength);
      k := k.(requests := k.requests + 1);
      if res.failed {
        k := k.(errors := k.errors + 1);
      } else {
        k := k.(latencies := k.latencies + [res.totalMs], ttfts := k.ttfts + [res.ttftMs],
                tpots := k.tpots + [res.tpotMs], outputTokens := k.outputTokens + res.outputTokens);
      }
      classes := classes[contextLength := k];
    }

    method CountSuccess(res: Result)
      modifies this
      ensures View() == old(View()).(okCount := old(okCount) + 1, samples := SamplesAfter(old(SamplesView()), res),
                                     flags := FlagsAfter(old(FlagsView()), res))
    {
      okCount := okCount + 1;
      AddSamples(res);
      CountFlags(res);
    }

    method Record(contextLength: int, res: Result)
      modifies this
      ensures View() == Counted(old(View()), contextLength, res)
    {
      RecordClass(contextLength, res);
      if res.failed {
        errCount := errCount + 1;
        return;
      }
      CountSuccess(res);
    }
  }

  // ---------- The protocol ----------

  /** Where a request's goroutine stands: before its critical section, past it, past the semaphore. */
  datatype Worker = Running | Recorded | SlotFreed

  datatype Config = Config(total: nat, concurrency: nat, contextLengths: seq<int>) {
    ghost predicate Valid() { contextLengths != [] }

    ghost function ContextFn(): nat -> int
      requires Valid()
    {
      (i: nat) => contextLengths[i % |contextLengths|]
    }

    ghost function ContextOf(i: nat): int
      requires Valid()
    {
      ContextFn()(i)
    }
  }

  /** One recorded request. */
  datatype Entry = Entry(i: nat, context: int, res: Result)

  /** `slots` counts the tokens in the semaphore channel, `wg` the wait group, `log` what was recorded for whom. */
  datatype State = State(next: nat, looping: bool, cancelled: bool, waited: bool, slots: int, wg: int,
                         workers: map<nat, Worker>, tally: Tally, log: seq<Entry>)

  ghost function Start(): State { State(0, true, false, false, 0, 0, map[], ZERO, []) }

  datatype Step =
    | Launch
    | Cancel
    | BreakLoop
    | LoopDone
    | Record(i: nat, res: Result)
    | FreeSlot(i: nat)
    | Exit(i: nat)
    | WaitReturns

  ghost predicate Can(c: Config, s: State, step: Step) {
    match step
    case Launch => s.looping && s.next < c.total && s.slots < c.concurrency
    case Cancel => true
    case BreakLoop => s.looping && s.next < c.total && s.cancelled
    case LoopDone => s.looping && s.next == c.total
    case Record(i, _) => i in s.workers && s.workers[i] == Running
    case FreeSlot(i) => i in s.workers && s.workers[i] == Recorded
    case Exit(i) => i in s.workers && s.workers[i] == SlotFreed
    case WaitReturns => !s.looping && !s.waited && s.wg == 0
  }

  ghost function Do(c: Config, s: State, step: Step): State
    requires c.Valid() && Can(c, s, step)
  {
    match step
    case Launch => s.(next := s.next + 1, slots := s.slots + 1, wg := s.wg + 1, workers := s.workers[s.next := Running])
    case Cancel => s.(cancelled := true)
    case BreakLoop => s.(looping := false)
    case LoopDone => s.(looping := false)
    case Record(i, res) =>
      var context := c.ContextOf(i);
      s.(workers := s.workers[i := Recorded], tally := Counted(s.tally, context, res),
         log := s.log + [Entry(i, context, res)])
    case FreeSlot(i) => s.(workers := s.workers[i := SlotFreed], slots := s.slots - 1)
    case Exit(i) => s.(workers := s.workers - {i}, wg := s.wg - 1)
    case WaitReturns => s.(waited := true)
  }

  ghost function Holders(workers: map<nat, Worker>): set<nat> { set i | i in workers && workers[i] != SlotFreed }

  ghost function Requests(classes: map<int, Class>): map<int, int> { map k | k in classes :: classes[k].requests }

  ghost function Errors(classes: map<int, Class>): map<int, int> { map k | k in classes :: classes[k].errors }

  /** The counters agree with each other and with the number of requests recorded. */
  ghost predicate Balanced(t: Tally, n: nat) {
    && t.okCount + t.errCount == n
    && |t.samples.latencies| == t.okCount && |t.samples.ttfts| <= t.okCount && |t.samples.tpots| <= t.okCount
    && t.flags.refPassCount <= t.flags.refCount == |t.flags.referenceOverlaps| <= t.okCount
    && t.flags.completedCount + t.flags.truncatedCount <= t.okCount
    && SumMap(Requests(t.classes)) == n
    && SumMap(Errors(t.classes)) == t.errCount
    && forall k | k in t.classes :: ClassBalanced(t.classes[k])
  }

  /** One sample of each kind for every request of the class that did not fail. */
  ghost predicate ClassBalanced(k: Class) {
    |k.latencies| == |k.ttfts| == |k.tpots| && |k.latencies| + k.errors == k.requests
  }

  lemma CountingKeepsClassSums(classes: map<int, Class>, c: int, r: Result)
    ensures var k := ClassAfter(ClassOf(classes, c), r);
            && SumMap(Requests(classes[c := k])) == SumMap(Requests(classes)) + 1
            && SumMap(Errors(classes[c := k])) == SumMap(Errors(classes)) + One(r.failed)
  {
    var k := ClassAfter(ClassOf(classes, c), r);
    assert Requests(classes[c := k]) == Requests(classes)[c := k.requests];
    assert Errors(classes[c := k]) == Errors(classes)[c := k.errors];
    SumMapUpdate(Requests(classes), c, k.requests);
    SumMapUpdate(Errors(classes), c, k.errors);
  }

  lemma CountingKeepsClassBalance(classes: map<int, Class>, c: int, r: Result)
    requires forall k | k in classes :: ClassBalanced(classes[k])
    ensures var after := classes[c := ClassAfter(ClassOf(classes, c), r)];
            forall k | k in after :: ClassBalanced(after[k])
  {
  }

  lemma CountingKeepsBalance(t: Tally, n: nat, c: int, r: Result)
    requires Balanced(t, n)
    ensures Balanced(Counted(t, c, r), n + 1)
  {
    CountingKeepsClassSums(t.classes, c, r);
    CountingKeepsClassBalance(t.classes, c, r);
  }

  /** How many recorded requests were of class `k`. */
  ghost function OfClass(log: seq<Entry>, k: int): nat {
    if log == [] then 0 else OfClass(log[..|log| - 1], k) + One(log[|log| - 1].context == k)
  }

  /** The tally after recording the entries of a log in order. */
  ghost function TallyOf(log: seq<Entry>): Tally {
    if log == [] then ZERO
    else
      var e := log[|log| - 1];
      Counted(TallyOf(log[..|log| - 1]), e.context, e.res)
  }

  lemma {:induction false} TallyIsBalanced(log: seq<Entry>)
    ensures Balanced(TallyOf(log), |log|)
  {
    if log == [] {
      NoneIsBalanced(TallyOf(log));
    } else {
      var e := log[|log| - 1];
      TallyIsBalanced(log[..|log| - 1]);
      CountingKeepsBalance(TallyOf(log[..|log| - 1]), |log| - 1, e.context, e.res);
    }
  }

  lemma NoneIsBalanced(t: Tally)
    requires t == ZERO
    ensures Balanced(t, 0)
  {
    assert Requests(t.classes) == map[] && Errors(t.classes) == map[];
  }

  lemma {:induction false} TallyCountsClasses(log: seq<Entry>, k: int)
    ensures ClassOf(TallyOf(log).classes, k).requests == OfClass(log, k)
  {
    if log != [] {
      TallyCountsClasses(log[..|log| - 1], k);
    }
  }

  ghost predicate Logged(log: seq<Entry>, i: nat) { exists j :: 0 <= j < |log| && log[j].i == i }

  ghost predicate IsRunning(workers: map<nat, Worker>, i: nat) { i in workers && workers[i] == Running }

  /** The loop, the semaphore and the wait group. */
  ghost predicate Shape(c: Config, s: State) {
    && s.next <= c.total && (s.looping ==> !s.waited)
    && (!s.looping && !s.cancelled ==> s.next == c.total)
    && s.wg == |s.workers| && s.slots == |Holders(s.workers)| && s.slots <= c.concurrency
    && (s.waited ==> s.workers == map[])
    && forall i | i in s.workers :: i < s.next
  }

  /** Every launched request is logged once, from its critical section on. */
  ghost predicate LogComplete(workers: map<nat, Worker>, log: seq<Entry>, next: nat) {
    && (forall j | 0 <= j < |log| :: log[j].i < next)
    && (forall i: nat | i < next :: Logged(log, i) <==> !IsRunning(workers, i))
    && (forall j, l | 0 <= j < l < |log| :: log[j].i != log[l].i)
  }

  ghost predicate Invariant(c: Config, s: State)
    requires c.Valid()
  {
    Shape(c, s) && LogComplete(s.workers, s.log, s.next) && Contexts(c.ContextFn(), s.log) && s.tally == TallyOf(s.log)
  }

  lemma LaunchKeepsShape(c: Config, s: State)
    requires c.Valid() && Shape(c, s) && Can(c, s, Launch)
    ensures Shape(c, Do(c, s, Launch))
  {
    var t := Do(c, s, Launch);
    assert s.next !in s.workers && s.next !in Holders(s.workers);
    assert Holders(t.workers) == Holders(s.workers) + {s.next};
    assert t.workers.Keys == s.workers.Keys + {s.next};
  }

  lemma RecordKeepsShape(c: Config, s: State, i: nat, res: Result)
    requires c.Valid() && Shape(c, s) && Can(c, s, Record(i, res))
    ensures Shape(c, Do(c, s, Record(i, res)))
  {
    var t := Do(c, s, Record(i, res));
    assert Holders(t.workers) == Holders(s.workers);
    assert t.workers.Keys == s.workers.Keys;
  }

  lemma FreeSlotKeepsShape(c: Config, s: State, i: nat)
    requires c.Valid() && Shape(c, s) && Can(c, s, FreeSlot(i))
    ensures Shape(c, Do(c, s, FreeSlot(i)))
  {
    var t := Do(c, s, FreeSlot(i));
    assert Holders(t.workers) == Holders(s.workers) - {i};
    assert t.workers.Keys == s.workers.Keys;
  }

  lemma ExitKeepsShape(c: Config, s: State, i: nat)
    requires c.Valid() && Shape(c, s) && Can(c, s, Exit(i))
    ensures Shape(c, Do(c, s, Exit(i)))
  {
    var t := Do(c, s, Exit(i));
    assert Holders(t.workers) == Holders(s.workers);
    assert t.workers.Keys == s.workers.Keys - {i};
  }

  lemma StepKeepsShape(c: Config, s: State, step: Step)
    requires c.Valid() && Shape(c, s) && Can(c, s, step)
    ensures Shape(c, Do(c, s, step))
  {
    match step
    case Launch => LaunchKeepsShape(c, s);
    case Record(i, res) => RecordKeepsShape(c, s, i, res);
    case FreeSlot(i) => FreeSlotKeepsShape(c, s, i);
    case Exit(i) => ExitKeepsShape(c, s, i);
    case _ =>
  }

  lemma LoggedAppend(log: seq<Entry>, e: Entry, i: nat)
    ensures Logged(log + [e], i) <==> Logged(log, i) || i == e.i
  {
    var more := log + [e];
    assert more[|log|] == e && forall j | 0 <= j < |log| :: more[j] == log[j];
  }

  lemma StepKeepsLogComplete(c: Config, s: State, step: Step)
    requires c.Valid() && Shape(c, s) && LogComplete(s.workers, s.log, s.next) && Can(c, s, step)
    ensures LogComplete(Do(c, s, step).workers, Do(c, s, step).log, Do(c, s, step).next)
  {
    var t := Do(c, s, step);
    match step
    case Launch =>
      assert !Logged(s.log, s.next);
    case Record(i, res) =>
      assert IsRunning(s.workers, i) && !Logged(s.log, i);
      forall l: nat | l < t.next ensures Logged(t.log, l) <==> !IsRunning(t.workers, l) {
        LoggedAppend(s.log, Entry(i, c.ContextOf(i), res), l);
      }
    case FreeSlot(i) =>
      assert forall l: nat :: IsRunning(t.workers, l) == IsRunning(s.workers, l);
    case Exit(i) =>
      assert forall l: nat :: IsRunning(t.workers, l) == IsRunning(s.workers, l);
    case _ =>
  }

  /** The log of a recorded request extends contexts and tally alike. */
  lemma RecordKeepsTally(contextOf: nat -> int, log: seq<Entry>, tally: Tally, e: Entry)
    requires Contexts(contextOf, log) && tally == TallyOf(log) && e.context == contextOf(e.i)
    ensures Contexts(contextOf, log + [e]) && Counted(tally, e.context, e.res) == TallyOf(log + [e])
  {
    assert (log + [e])[..|log|] == log;
  }

  lemma RecordKeepsInvariant(c: Config, s: State, i: nat, res: Result)
    requires c.Valid() && Invariant(c, s) && Can(c, s, Record(i, res))
    ensures Invariant(c, Do(c, s, Record(i, res)))
  {
    StepKeepsShape(c, s, Record(i, res));
    StepKeepsLogComplete(c, s, Record(i, res));
    RecordKeepsTally(c.ContextFn(), s.log, s.tally, Entry(i, c.ContextOf(i), res));
  }

  lemma OtherStepKeepsInvariant(c: Config, s: State, step: Step)
    requires c.Valid() && Invariant(c, s) && Can(c, s, step) && !step.Record?
    ensures Invariant(c, Do(c, s, step))
  {
    StepKeepsShape(c, s, step);
    StepKeepsLogComplete(c, s, step);
    var t := Do(c, s, step);
    assert t.log == s.log && t.tally == s.tally;
  }

  lemma StepKeepsInvariant(c: Config, s: State, step: Step)
    requires c.Valid() && Invariant(c, s) && Can(c, s, step)
    ensures Invariant(c, Do(c, s, step))
  {
    if step.Record? {
      RecordKeepsInvariant(c, s, step.i, step.res);
    } else {
      OtherStepKeepsInvariant(c, s, step);
    }
  }

  ghost predicate Run(c: Config, s: State, steps: seq<Step>)
    requires c.Valid()
    decreases |steps|
  {
    steps != [] ==> Can(c, s, steps[0]) && Run(c, Do(c, s, steps[0]), steps[1..])
  }

  ghost function End(c: Config, s: State, steps: seq<Step>): State
    requires c.Valid() && Run(c, s, steps)
    decreases |steps|
  {
    if steps == [] then s else End(c, Do(c, s, steps[0]), steps[1..])
  }

  lemma {:induction false} RunKeepsInvariant(c: Config, s: State, steps: seq<Step>)
    requires c.Valid() && Run(c, s, steps) && Invariant(c, s)
    ensures Invariant(c, End(c, s, steps))
    decreases |steps|
  {
    if steps != [] {
      StepKeepsInvariant(c, s, steps[0]);
      RunKeepsInvariant(c, Do(c, s, steps[0]), steps[1..]);
    }
  }

  lemma StartInvariant(c: Config)
    requires c.Valid()
    ensures Invariant(c, Start())
  {
    assert Holders(Start().workers) == {};
  }

  ghost predicate Reachable(c: Config, s: State)
    requires c.Valid()
  {
    exists steps :: Run(c, Start(), steps) && End(c, Start(), steps) == s
  }

  lemma ReachableKeepsInvariant(c: Config, s: State)
    requires c.Valid() && Reachable(c, s)
    ensures Invariant(c, s)
  {
    var steps :| Run(c, Start(), steps) && End(c, Start(), steps) == s;
    StartInvariant(c);
    RunKeepsInvariant(c, Start(), steps);
  }

  /** In every interleaving the requests that hold a slot are at most the configured concurrency, and the
      semaphore counts exactly them. */
  lemma ConcurrencyIsBounded(c: Config, s: State)
    requires c.Valid() && Reachable(c, s)
    ensures |Holders(s.workers)| == s.slots <= c.concurrency
  {
    ReachableKeepsInvariant(c, s);
  }

  /** Once the wait returns nothing is missing and nothing counted twice: every request started has been
      recorded once, and all counters agree on their number. */
  lemma NothingIsLostAtTheEnd(c: Config, s: State)
    requires c.Valid() && Reachable(c, s) && s.waited
    ensures s.tally.okCount + s.tally.errCount == s.next
    ensures SumMap(Requests(s.tally.classes)) == s.next
    ensures SumMap(Errors(s.tally.classes)) == s.tally.errCount
    ensures |s.tally.samples.latencies| == s.tally.okCount
    ensures Balanced(s.tally, s.next) && s.tally == TallyOf(s.log)
    ensures forall i: nat | i < s.next :: Logged(s.log, i)
    ensures !s.cancelled ==> s.next == c.total
  {
    ReachableKeepsInvariant(c, s);
    assert forall i: nat :: !IsRunning(s.workers, i);
    IndicesCovered(s.log, s.next);
    TallyIsBalanced(s.log);
  }

  /** Requests among the first `n` that are of class `k`. */
  ghost function Expected(contextOf: nat -> int, n: nat, k: int): nat {
    if n == 0 then 0 else Expected(contextOf, n - 1, k) + One(contextOf(n - 1) == k)
  }

  /** The requests that are the turn of context length `k`. */
  ghost function Rotation(contextLengths: seq<int>, n: nat, k: int): set<nat>
    requires contextLengths != []
  {
    set i: nat | i < n && ItsTurn(contextLengths, i, k)
  }

  ghost predicate ItsTurn(contextLengths: seq<int>, i: nat, k: int)
    requires contextLengths != []
  {
    contextLengths[i % |contextLengths|] == k
  }

  lemma RotationStep(contextLengths: seq<int>, n: nat, k: int)
    requires contextLengths != [] && n > 0
    ensures |Rotation(contextLengths, n, k)|
         == |Rotation(contextLengths, n - 1, k)| + One(ItsTurn(contextLengths, n - 1, k))
  {
    var before, now := Rotation(contextLengths, n - 1, k), Rotation(contextLengths, n, k);
    assert n - 1 !in before;
    assert now == before + (if ItsTurn(contextLengths, n - 1, k) then {n - 1} else {});
  }

  lemma {:induction false} ExpectedIsRotation(c: Config, n: nat, k: int)
    requires c.Valid()
    ensures Expected(c.ContextFn(), n, k) == |Rotation(c.contextLengths, n, k)|
  {
    if n == 0 {
      assert Rotation(c.contextLengths, 0, k) == {};
    } else {
      ExpectedIsRotation(c, n - 1, k);
      RotationStep(c.contextLengths, n, k);
    }
  }

  /** Each class has been sent exactly its share of the rotation over context lengths. */
  lemma ClassesGetTheirShare(c: Config, s: State, k: int)
    requires c.Valid() && Reachable(c, s) && s.waited
    ensures ClassOf(s.tally.classes, k).requests == Expected(c.ContextFn(), s.next, k)
    ensures ClassOf(s.tally.classes, k).requests == |Rotation(c.contextLengths, s.next, k)|
  {
    ExpectedIsRotation(c, s.next, k);
    ReachableKeepsInvariant(c, s);
    TallyCountsClasses(s.log, k);
    assert forall i: nat :: !IsRunning(s.workers, i);
    IndicesCovered(s.log, s.next);
    ShareOfLog(c.ContextFn(), s.log, s.next, k);
  }

  /** The log lists every index below `n` once, in whatever order the requests finished. */
  ghost predicate Covers(log: seq<Entry>, n: nat) {
    && (forall j | 0 <= j < |log| :: log[j].i < n)
    && (forall i: nat | i < n :: Logged(log, i))
    && (forall j, l | 0 <= j < l < |log| :: log[j].i != log[l].i)
  }

  ghost function Without(log: seq<Entry>, at: nat): (rest: seq<Entry>)
    requires at < |log|
    ensures |rest| == |log| - 1
    ensures forall j | 0 <= j < |rest| :: rest[j] == log[if j < at then j else j + 1]
  {
    log[..at] + log[at + 1..]
  }

  /** Where the log has the index `n - 1`, and that the rest covers the indices before it. */
  lemma TakeLast(log: seq<Entry>, n: nat) returns (at: nat)
    requires n > 0 && Covers(log, n)
    ensures at < |log| && log[at].i == n - 1 && Covers(Without(log, at), n - 1)
  {
    assert Logged(log, n - 1);
    at :| 0 <= at < |log| && log[at].i == n - 1;
    var rest := Without(log, at);
    forall i: nat | i < n - 1 ensures Logged(rest, i) {
      assert Logged(log, i);
      var j :| 0 <= j < |log| && log[j].i == i;
      assert rest[if j < at then j else j - 1] == log[j];
    }
  }

  lemma {:induction false} OfClassWithout(log: seq<Entry>, at: nat, k: int)
    requires at < |log|
    ensures OfClass(log, k) == OfClass(Without(log, at), k) + One(log[at].context == k)
  {
    var n := |log| - 1;
    var rest := Without(log, at);
    if at == n {
      assert rest == log[..n];
    } else {
      OfClassWithout(log[..n], at, k);
      assert rest[..n - 1] == Without(log[..n], at) && rest[n - 1] == log[n];
    }
  }

  lemma FirstIsNatural(log: seq<Entry>)
    ensures log == [] || log[0].i >= 0
  {
  }

  ghost predicate Contexts(contextOf: nat -> int, log: seq<Entry>) {
    forall j | 0 <= j < |log| :: log[j].context == contextOf(log[j].i)
  }

  lemma {:induction false} ShareOfLog(contextOf: nat -> int, log: seq<Entry>, n: nat, k: int)
    requires Covers(log, n) && Contexts(contextOf, log)
    ensures OfClass(log, k) == Expected(contextOf, n, k)
  {
    if n == 0 {
      FirstIsNatural(log);
    } else {
      var at := TakeLast(log, n);
      OfClassWithout(log, at, k);
      ShareOfLog(contextOf, Without(log, at), n - 1, k);
    }
  }

  /** Distinct indices below `n` that cover all of them number `n`. */
  lemma {:induction false} IndicesCovered(log: seq<Entry>, n: nat)
    requires Covers(log, n)
    ensures |log| == n
  {
    if n == 0 {
      FirstIsNatural(log);
    } else {
      var at := TakeLast(log, n);
      IndicesCovered(Without(log, at), n - 1);
    }
  }

  lemma ShapeNeverStuck(c: Config, s: State)
    requires Shape(c, s) && !s.waited && c.concurrency > 0
    ensures exists step: Step :: !step.Cancel? && Can(c, s, step)
  {
    if s.workers != map[] {
      var i :| i in s.workers;
      var res := Result(false, 0.0, 0.0, 0.0, 0.0, 0.0, Stop, true, true, false, 0.0, false);
      assert Can(c, s, Record(i, res)) || Can(c, s, FreeSlot(i)) || Can(c, s, Exit(i));
    } else if s.looping {
      assert Holders(s.workers) == {};
      assert Can(c, s, Launch) || Can(c, s, LoopDone);
    } else {
      assert Can(c, s, WaitReturns);
    }
  }

  /** With at least one slot no interleaving gets stuck before the wait has returned. */
  lemma NeverStuck(c: Config, s: State)
    requires c.Valid() && Reachable(c, s) && !s.waited && c.concurrency > 0
    ensures exists step: Step :: !step.Cancel? && Can(c, s, step)
  {
    ReachableKeepsInvariant(c, s);
    ShapeNeverStuck(c, s);
  }

  // ---------- The wait returns ----------

  ghost function Runners(workers: map<nat, Worker>): set<nat> { set i | i in workers && workers[i] == Running }

  /** Steps still to come: four for each request not yet launched, up to three for each goroutine, the end of
      the loop and the return of the wait. */
  ghost function Remaining(c: Config, s: State): int {
    (if s.looping then 4 * (c.total - s.next) + 1 else 0) + s.wg + s.slots + |Runners(s.workers)|
    + (if s.waited then 0 else 1)
  }

  lemma RemainingIsNatural(c: Config, s: State)
    requires c.Valid() && Invariant(c, s)
    ensures Remaining(c, s) >= 0
  {
  }

  lemma RunnersWithout(workers: map<nat, Worker>, i: nat)
    ensures |Runners(workers)| == |Runners(workers) - {i}| + One(IsRunning(workers, i))
  {
    if IsRunning(workers, i) {
      assert i in Runners(workers);
    } else {
      assert Runners(workers) - {i} == Runners(workers);
    }
  }

  lemma RunnersAfter(workers: map<nat, Worker>, i: nat, w: Worker)
    ensures |Runners(workers[i := w])| == |Runners(workers)| - One(IsRunning(workers, i)) + One(w == Running)
  {
    RunnersWithout(workers, i);
    RunnersWithout(workers[i := w], i);
    assert Runners(workers[i := w]) - {i} == Runners(workers) - {i};
  }

  lemma RunnersAfterExit(workers: map<nat, Worker>, i: nat)
    requires i in workers && !IsRunning(workers, i)
    ensures Runners(workers - {i}) == Runners(workers)
  {
  }

  /** Every step but a cancellation uses up one of them at least. */
  lemma StepUsesOneUp(c: Config, s: State, step: Step)
    requires c.Valid() && Shape(c, s) && Can(c, s, step) && !step.Cancel?
    ensures Remaining(c, Do(c, s, step)) <= Remaining(c, s) - 1
  {
    match step
    case Launch => RunnersAfter(s.workers, s.next, Running);
    case Record(i, res) => RunnersAfter(s.workers, i, Recorded);
    case FreeSlot(i) => RunnersAfter(s.workers, i, SlotFreed);
    case Exit(i) => RunnersAfterExit(s.workers, i);
    case _ =>
  }

  /** Steps of a run other than cancellations. */
  ghost function Moves(steps: seq<Step>): nat {
    if steps == [] then 0 else One(!steps[0].Cancel?) + Moves(steps[1..])
  }

  lemma {:induction false} RunUsesUp(c: Config, s: State, steps: seq<Step>)
    requires c.Valid() && Run(c, s, steps) && Invariant(c, s)
    ensures Moves(steps) + Remaining(c, End(c, s, steps)) <= Remaining(c, s)
    decreases |steps|
  {
    if steps != [] {
      StepKeepsInvariant(c, s, steps[0]);
      if !steps[0].Cancel? {
        StepUsesOneUp(c, s, steps[0]);
      }
      RunUsesUp(c, Do(c, s, steps[0]), steps[1..]);
    }
  }

  /** The wait returns: no run makes more than four moves a request and two more, and with at least one slot a run
      that can make none has waited. */
  lemma WaitReturnsInTheEnd(c: Config, steps: seq<Step>)
    requires c.Valid() && Run(c, Start(), steps)
    ensures Moves(steps) <= 4 * c.total + 2
    ensures var s := End(c, Start(), steps);
            c.concurrency > 0 ==> (s.waited <==> forall step: Step | !step.Cancel? :: !Can(c, s, step))
  {
    var s := End(c, Start(), steps);
    StartInvariant(c);
    RunUsesUp(c, Start(), steps);
    assert Runners(Start().workers) == {};
    RunKeepsInvariant(c, Start(), steps);
    RemainingIsNatural(c, s);
    if c.concurrency > 0 && !s.waited {
      ShapeNeverStuck(c, s);
    }
  }
}
