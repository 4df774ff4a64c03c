/** What the benchmark's counters stand for: each a count, or a list of measurements, over the log of requests. */
module LoadCounts {
  import opened LoadRunner
  import opened Common

  datatype Gauge = Oks | Errs | References | ReferencePasses | Completed | Truncated | SafetyFails | QualityPasses

  ghost function Reading(t: Tally, g: Gauge): int {
    match g
    case Oks => t.okCount
    case Errs => t.errCount
    case References => t.flags.refCount
    case ReferencePasses => t.flags.refPassCount
    case Completed => t.flags.completedCount
    case Truncated => t.flags.truncatedCount
    case SafetyFails => t.flags.safetyFailCount
    case QualityPasses => t.flags.qualityPassCount
  }

  /** What a gauge counts: all but one of them only requests that did not fail. */
  ghost predicate Counts(g: Gauge, r: Result) {
    if g == Errs then r.failed
    else
      && !r.failed
      && (g == References ==> r.hasReference) && (g == ReferencePasses ==> r.hasReference && r.referencePass)
      && (g == Completed ==> r.finish == Stop) && (g == Truncated ==> r.finish == Length)
      && (g == SafetyFails ==> !r.safetyPass) && (g == QualityPasses ==> r.qualityPass)
  }

  ghost function Number(log: seq<Entry>, g: Gauge): nat {
    if log == [] then 0 else Number(log[..|log| - 1], g) + One(Counts(g, log[|log| - 1].res))
  }

  lemma ReadingStep(t: Tally, c: int, r: Result, g: Gauge)
    ensures Reading(Counted(t, c, r), g) == Reading(t, g) + One(Counts(g, r))
  {
  }

  /** After recording any log each counter is the number of requests it is there to count. */
  lemma {:induction false} CountersCountTheLog(log: seq<Entry>, g: Gauge)
    ensures Reading(TallyOf(log), g) == Number(log, g)
  {
    if log != [] {
      var n := |log| - 1;
      CountersCountTheLog(log[..n], g);
      ReadingStep(TallyOf(log[..n]), log[n].context, log[n].res, g);
    }
  }

  datatype Series = Latencies | Ttfts | Tpots | Overlaps | InputTokens | OutputTokens | AllTtfts | AllTpots

  ghost function Value(q: Series, r: Result): real {
    match q
    case Latencies => r.totalMs
    case Ttfts => r.ttftMs
    case Tpots => r.tpotMs
    case Overlaps => r.referenceOverlap
    case InputTokens => r.inputTokens
    case OutputTokens => r.outputTokens
    case AllTtfts => r.ttftMs
    case AllTpots => r.tpotMs
  }

  /** The request did not fail and has a value for the series. */
  ghost predicate Has(q: Series, r: Result) {
    !r.failed && (q == Overlaps ==> r.hasReference) && (q == Ttfts || q == Tpots ==> Value(q, r) > 0.0)
  }

  /** The values a log contributes to a series, in the order recorded. */
  ghost function Gathered(log: seq<Entry>, q: Series): seq<real> {
    if log == [] then []
    else
      var r := log[|log| - 1].res;
      if Has(q, r) then Gathered(log[..|log| - 1], q) + [Value(q, r)] else Gathered(log[..|log| - 1], q)
  }

  ghost function Sum(s: seq<real>): real { if s == [] then 0.0 else Sum(s[..|s| - 1]) + s[|s| - 1] }

  lemma GatheredSum(log: seq<Entry>, q: Series)
    requires log != []
    ensures var n := |log| - 1;
            Sum(Gathered(log, q))
            == Sum(Gathered(log[..n], q)) + (if Has(q, log[n].res) then Value(q, log[n].res) else 0.0)
  {
    var n := |log| - 1;
    var before := Gathered(log[..n], q);
    assert (before + [Value(q, log[n].res)])[..|before|] == before;
  }

  /** The series kept as lists, and as sums. */
  ghost predicate Measures(t: Tally, log: seq<Entry>) {
    && t.samples.latencies == Gathered(log, Latencies) && t.samples.ttfts == Gathered(log, Ttfts)
    && t.samples.tpots == Gathered(log, Tpots) && t.flags.referenceOverlaps == Gathered(log, Overlaps)
    && t.samples.inTokSum == Sum(Gathered(log, InputTokens)) && t.samples.outTokSum == Sum(Gathered(log, OutputTokens))
  }

  /** The samples are the measurements in the order recorded, and the token sums add up. */
  lemma {:induction false} SamplesMeasureTheLog(log: seq<Entry>)
    ensures Measures(TallyOf(log), log)
  {
    if log != [] {
      SamplesMeasureTheLog(log[..|log| - 1]);
      GatheredSum(log, InputTokens);
      GatheredSum(log, OutputTokens);
    }
  }

  /** The entries of one class. */
  ghost function Only(log: seq<Entry>, k: int): seq<Entry> {
    if log == [] then []
    else
      var e, before := log[|log| - 1], Only(log[..|log| - 1], k);
      if e.context == k then before + [e] else before
  }

  ghost predicate ClassMeasures(c: Class, mine: seq<Entry>) {
    && c.requests == |mine| && c.errors == Number(mine, Errs)
    && c.latencies == Gathered(mine, Latencies) && c.ttfts == Gathered(mine, AllTtfts)
    && c.tpots == Gathered(mine, AllTpots) && c.outputTokens == Sum(Gathered(mine, OutputTokens))
  }

  lemma ClassMeasuresOneMore(c: Class, mine: seq<Entry>, e: Entry)
    requires ClassMeasures(c, mine)
    ensures ClassMeasures(ClassAfter(c, e.res), mine + [e])
  {
    assert (mine + [e])[..|mine|] == mine;
    GatheredSum(mine + [e], OutputTokens);
  }

  /** A class's entry is what its own requests, and no others, make of it. */
  lemma {:induction false} ClassesMeasureTheirOwn(log: seq<Entry>, k: int)
    ensures ClassMeasures(ClassOf(TallyOf(log).classes, k), Only(log, k))
  {
    if log != [] {
      var n := |log| - 1;
      ClassesMeasureTheirOwn(log[..n], k);
      if log[n].context == k {
        ClassMeasuresOneMore(ClassOf(TallyOf(log[..n]).classes, k), Only(log[..n], k), log[n]);
      }
    }
  }

  /** So in every reachable state of every interleaving all counters stand for the requests recorded so far. */
  lemma CountersStandForTheLog(c: Config, s: State, g: Gauge, k: int)
    requires c.Valid() && Reachable(c, s)
    ensures Reading(s.tally, g) == Number(s.log, g) && Measures(s.tally, s.log)
    ensures ClassMeasures(ClassOf(s.tally.classes, k), Only(s.log, k))
  {
    ReachableKeepsInvariant(c, s);
    CountersCountTheLog(s.log, g);
    SamplesMeasureTheLog(s.log);
    ClassesMeasureTheirOwn(s.log, k);
  }
}
