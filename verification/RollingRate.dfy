/** Sixty one-second buckets that are cleared lazily, and the event log they stand for. */
module RollingRate {
  import opened Common

  const WINDOW := 60

  datatype Ring = Ring(reqs: seq<int>, errs: seq<int>, lastSec: int) {
    ghost predicate Valid() { |reqs| == WINDOW && |errs| == WINDOW && lastSec >= 0 }
  }

  function Zeros(): seq<int> { seq(WINDOW, i => 0) }

  function Empty(): Ring { Ring(Zeros(), Zeros(), 0) }

  /** Buckets of the seconds in (last, sec] emptied. */
  function Wipe(counts: seq<int>, last: int, sec: int): (r: seq<int>)
    requires |counts| == WINDOW
  {
    seq(WINDOW, i requires 0 <= i < WINDOW => if (i - last - 1) % WINDOW < sec - last then 0 else counts[i])
  }

  function Advance(r: Ring, sec: int): Ring
    requires r.Valid()
  {
    if r.lastSec == 0 then r.(lastSec := sec)
    else if sec <= r.lastSec then r
    else Ring(Wipe(r.reqs, r.lastSec, sec), Wipe(r.errs, r.lastSec, sec), sec)
  }

  function Observe(r: Ring, sec: int, isErr: bool): Ring
    requires r.Valid() && sec >= 0
  {
    var a := Advance(r, sec);
    var i := sec % WINDOW;
    Ring(a.reqs[i := a.reqs[i] + 1], if isErr then a.errs[i := a.errs[i] + 1] else a.errs, a.lastSec)
  }

  function Total(counts: seq<int>): int {
    if counts == [] then 0 else Total(counts[..|counts| - 1]) + counts[|counts| - 1]
  }

  // ---------- The counter, updated in place ----------

  class Counter {
    const reqs: array<int>
    const errs: array<int>
    var lastSec: int

    ghost predicate Valid()
      reads this, reqs, errs
    {
      reqs.Length == WINDOW && errs.Length == WINDOW && reqs != errs && lastSec >= 0
    }

    ghost function View(): Ring
      reads this, reqs, errs
    {
      Ring(reqs[..], errs[..], lastSec)
    }

    constructor ()
      ensures Valid() && View() == Empty() && fresh(reqs) && fresh(errs)
    {
      reqs := new int[WINDOW](i => 0);
      errs := new int[WINDOW](i => 0);
      lastSec := 0;
    }

    method AdvanceTo(sec: int)
      requires Valid() && sec >= 0
      modifies this, reqs, errs
      ensures Valid() && View() == Advance(old(View()), sec)
    {
      if lastSec == 0 {
        lastSec := sec;
        return;
      }
      var gap := sec - lastSec;
      if gap <= 0 {
        return;
      }
      if gap >= WINDOW {
        var i := 0;
        while i < WINDOW
          invariant 0 <= i <= WINDOW
          invariant lastSec == old(lastSec)
          invariant forall j | 0 <= j < i :: reqs[j] == 0 && errs[j] == 0
        {
          reqs[i], errs[i] := 0, 0;
          i := i + 1;
        }
        lastSec := sec;
        assert reqs[..] == Wipe(old(reqs[..]), old(lastSec), sec);
        assert errs[..] == Wipe(old(errs[..]), old(lastSec), sec);
        return;
      }
      var s := lastSec + 1;
      while s <= sec
        invariant lastSec == old(lastSec) && lastSec + 1 <= s <= sec + 1
        invariant reqs[..] == Wipe(old(reqs[..]), lastSec, s - 1)
        invariant errs[..] == Wipe(old(errs[..]), lastSec, s - 1)
      {
        ghost var beforeR, beforeE := reqs[..], errs[..];
        var idx := s % WINDOW;
        reqs[idx], errs[idx] := 0, 0;
        WipeOneMore(old(reqs[..]), lastSec, s);
        WipeOneMore(old(errs[..]), lastSec, s);
        assert reqs[..] == beforeR[idx := 0] && errs[..] == beforeE[idx := 0];
        s := s + 1;
      }
      lastSec := sec;
    }

    method ObserveAt(sec: int, isErr: bool)
      requires Valid() && sec >= 0
      modifies this, reqs, errs
      ensures Valid() && View() == Observe(old(View()), sec, isErr)
    {
      AdvanceTo(sec);
      ghost var a := View();
      var idx := sec % WINDOW;
      reqs[idx] := reqs[idx] + 1;
      if isErr {
        errs[idx] := errs[idx] + 1;
      }
      assert reqs[..] == a.reqs[idx := a.reqs[idx] + 1];
      assert errs[..] == if isErr then a.errs[idx := a.errs[idx] + 1] else a.errs;
    }

    method Sum(sec: int) returns (r: int, e: int)
      requires Valid() && sec >= 0
      modifies this, reqs, errs
      ensures Valid() && View() == Advance(old(View()), sec)
      ensures r == Total(View().reqs) && e == Total(View().errs)
    {
      AdvanceTo(sec);
      r, e := 0, 0;
      var i := 0;
      while i < WINDOW
        invariant 0 <= i <= WINDOW
        invariant r == Total(reqs[..i]) && e == Total(errs[..i])
      {
        assert reqs[..i + 1][..i] == reqs[..i] && errs[..i + 1][..i] == errs[..i];
        r := r + reqs[i];
        e := e + errs[i];
        i := i + 1;
      }
      assert reqs[..WINDOW] == reqs[..] && errs[..WINDOW] == errs[..];
    }
  }

  lemma WipeOneMore(counts: seq<int>, last: int, s: int)
    requires |counts| == WINDOW && last < s < last + WINDOW
    ensures Wipe(counts, last, s) == Wipe(counts, last, s - 1)[s % WINDOW := 0]
  {
    var before, after := Wipe(counts, last, s - 1), Wipe(counts, last, s);
    forall i | 0 <= i < WINDOW ensures after[i] == before[s % WINDOW := 0][i] {
      assert (i - last - 1) % WINDOW == s - last - 1 <==> i == s % WINDOW;
    }
  }

  // ---------- The event log ----------

  datatype Event = Event(sec: int, isErr: bool)

  ghost predicate InWindow(e: Event, last: int) { last - WINDOW < e.sec <= last }

  /** Events (or failures only) in the window that fall on bucket `i`. */
  ghost function Tally(log: seq<Event>, last: int, i: int, errsOnly: bool): nat {
    if log == [] then 0
    else
      var e := log[|log| - 1];
      Tally(log[..|log| - 1], last, i, errsOnly)
      + (if InWindow(e, last) && e.sec % WINDOW == i && (errsOnly ==> e.isErr) then 1 else 0)
  }

  /** Events (or failures only) in the window. */
  ghost function WindowCount(log: seq<Event>, last: int, errsOnly: bool): nat {
    if log == [] then 0
    else
      var e := log[|log| - 1];
      WindowCount(log[..|log| - 1], last, errsOnly) + (if InWindow(e, last) && (errsOnly ==> e.isErr) then 1 else 0)
  }

  ghost function Tallies(log: seq<Event>, last: int, errsOnly: bool): seq<int> {
    seq(WINDOW, i requires 0 <= i < WINDOW => Tally(log, last, i, errsOnly))
  }

  /** Every bucket holds the count of its second's events, and no event is newer than the newest second seen. */
  ghost predicate Represents(r: Ring, log: seq<Event>) {
    && r.Valid()
    && (r.lastSec == 0 ==> log == [])
    && (forall k | 0 <= k < |log| :: log[k].sec <= r.lastSec)
    && r.reqs == Tallies(log, r.lastSec, false)
    && r.errs == Tallies(log, r.lastSec, true)
  }

  /** The one second a bucket can stand for: emptied when the window has moved past it, and kept otherwise. */
  lemma BucketOnAdvance(s: int, last: int, sec: int, i: int)
    requires s <= last < sec && 0 <= i < WINDOW && s % WINDOW == i
    ensures sec - WINDOW < s <==> (last - WINDOW < s && (i - last - 1) % WINDOW >= sec - last)
  {
    if last - WINDOW < s {
      assert (i - last - 1) % WINDOW == s + WINDOW - last - 1 by {
        assert (s + WINDOW - last - 1 - (i - last - 1)) % WINDOW == 0;
      }
    }
  }

  lemma {:induction false} TallyOnAdvance(log: seq<Event>, last: int, sec: int, i: int, errsOnly: bool)
    requires last < sec && 0 <= i < WINDOW
    requires forall k | 0 <= k < |log| :: log[k].sec <= last
    ensures Tally(log, sec, i, errsOnly)
         == if (i - last - 1) % WINDOW < sec - last then 0 else Tally(log, last, i, errsOnly)
  {
    if log != [] {
      var e := log[|log| - 1];
      TallyOnAdvance(log[..|log| - 1], last, sec, i, errsOnly);
      if e.sec % WINDOW == i {
        BucketOnAdvance(e.sec, last, sec, i);
      }
    }
  }

  lemma AdvanceKeepsLog(r: Ring, log: seq<Event>, sec: int)
    requires Represents(r, log) && sec > 0
    ensures Represents(Advance(r, sec), log)
  {
    if r.lastSec == 0 {
      assert Tallies(log, sec, false) == Tallies(log, 0, false) && Tallies(log, sec, true) == Tallies(log, 0, true);
    } else if sec > r.lastSec {
      forall i, errsOnly | 0 <= i < WINDOW
        ensures Tally(log, sec, i, errsOnly)
             == if (i - r.lastSec - 1) % WINDOW < sec - r.lastSec then 0 else Tally(log, r.lastSec, i, errsOnly)
      {
        TallyOnAdvance(log, r.lastSec, sec, i, errsOnly);
      }
      assert Advance(r, sec).reqs == Tallies(log, sec, false);
      assert Advance(r, sec).errs == Tallies(log, sec, true);
    }
  }

  /** The second an observation ends up counted in: its own, unless it lags by a window or more; then the
      second of the current window that shares its bucket. */
  ghost function CountedAt(sec: int, newest: int): int {
    if sec > newest - WINDOW then sec else newest - (newest - sec) % WINDOW
  }

  lemma CountedAtSharesBucket(sec: int, newest: int)
    requires sec <= newest
    ensures CountedAt(sec, newest) % WINDOW == sec % WINDOW && newest - WINDOW < CountedAt(sec, newest) <= newest
  {
  }

  lemma ObserveAppendsToLog(r: Ring, log: seq<Event>, sec: int, isErr: bool)
    requires Represents(r, log) && sec > 0
    ensures var newest := Advance(r, sec).lastSec;
            Represents(Observe(r, sec, isErr), log + [Event(CountedAt(sec, newest), isErr)])
  {
    var a := Advance(r, sec);
    AdvanceKeepsLog(r, log, sec);
    CountedAtSharesBucket(sec, a.lastSec);
    var e := Event(CountedAt(sec, a.lastSec), isErr);
    var o, next := Observe(r, sec, isErr), log + [e];
    assert next[..|log|] == log;
    assert o.reqs == Tallies(next, a.lastSec, false);
    assert o.errs == Tallies(next, a.lastSec, true);
  }

  lemma {:induction false} TotalOfZeros(s: seq<int>)
    requires forall i | 0 <= i < |s| :: s[i] == 0
    ensures Total(s) == 0
  {
    if s != [] {
      TotalOfZeros(s[..|s| - 1]);
    }
  }

  lemma {:induction false} TotalUpdate(s: seq<int>, i: nat, v: int)
    requires i < |s|
    ensures Total(s[i := v]) == Total(s) - s[i] + v
  {
    var n := |s| - 1;
    if i == n {
      assert s[i := v][..n] == s[..n];
    } else {
      assert s[i := v][..n] == s[..n][i := v];
      TotalUpdate(s[..n], i, v);
    }
  }

  lemma {:induction false} BucketsSumToWindow(log: seq<Event>, last: int, errsOnly: bool)
    ensures Total(Tallies(log, last, errsOnly)) == WindowCount(log, last, errsOnly)
  {
    var ts := Tallies(log, last, errsOnly);
    if log == [] {
      TotalOfZeros(ts);
    } else {
      var e, before := log[|log| - 1], Tallies(log[..|log| - 1], last, errsOnly);
      BucketsSumToWindow(log[..|log| - 1], last, errsOnly);
      var i := e.sec % WINDOW;
      if InWindow(e, last) && (errsOnly ==> e.isErr) {
        assert ts == before[i := before[i] + 1];
        TotalUpdate(before, i, before[i] + 1);
      } else {
        assert ts == before;
      }
    }
  }

  // ---------- Whole runs ----------

  datatype Call = Observed(sec: int, isErr: bool) | Summed(sec: int)

  ghost predicate Positive(calls: seq<Call>) { forall k | 0 <= k < |calls| :: calls[k].sec > 0 }

  ghost function Apply(r: Ring, call: Call): (r': Ring)
    requires r.Valid() && call.sec > 0
    ensures r'.Valid()
  {
    match call
    case Observed(sec, isErr) => Observe(r, sec, isErr)
    case Summed(sec) => Advance(r, sec)
  }

  ghost function After(calls: seq<Call>): (r: Ring)
    requires Positive(calls)
    ensures r.Valid()
  {
    if calls == [] then Empty()
    else Apply(After(calls[..|calls| - 1]), calls[|calls| - 1])
  }

  ghost function Later(a: int, b: int): int { if b > a then b else a }

  ghost function Newest(calls: seq<Call>): int {
    if calls == [] then 0
    else Later(Newest(calls[..|calls| - 1]), calls[|calls| - 1].sec)
  }

  /** What was observed, as observed. */
  ghost function Log(calls: seq<Call>): seq<Event> {
    if calls == [] then []
    else
      var call := calls[|calls| - 1];
      Log(calls[..|calls| - 1]) + (if call.Observed? then [Event(call.sec, call.isErr)] else [])
  }

  /** What was observed, each event at the second it is counted in. */
  ghost function CountedLog(calls: seq<Call>): seq<Event> {
    if calls == [] then []
    else
      var call := calls[|calls| - 1];
      CountedLog(calls[..|calls| - 1])
      + (if call.Observed? then [Event(CountedAt(call.sec, Newest(calls)), call.isErr)] else [])
  }

  lemma {:induction false} RunRepresentsCountedLog(calls: seq<Call>)
    requires Positive(calls)
    ensures Represents(After(calls), CountedLog(calls)) && After(calls).lastSec == Newest(calls)
  {
    if calls == [] {
      assert Empty().reqs == Tallies([], 0, false) && Empty().errs == Tallies([], 0, true);
    } else {
      var init := calls[..|calls| - 1];
      RunRepresentsCountedLog(init);
      assert After(calls) == Apply(After(init), calls[|calls| - 1]);
      match calls[|calls| - 1]
      case Observed(sec, isErr) => ObserveAppendsToLog(After(init), CountedLog(init), sec, isErr);
      case Summed(sec) =>
        AdvanceKeepsLog(After(init), CountedLog(init), sec);
        assert CountedLog(calls) == CountedLog(init);
    }
  }

  /** For every run, the sum is the number of events counted in the last sixty seconds up to the newest second seen. */
  lemma SumCountsCountedLog(calls: seq<Call>)
    requires Positive(calls)
    ensures Total(After(calls).reqs) == WindowCount(CountedLog(calls), Newest(calls), false)
    ensures Total(After(calls).errs) == WindowCount(CountedLog(calls), Newest(calls), true)
  {
    RunRepresentsCountedLog(calls);
    BucketsSumToWindow(CountedLog(calls), Newest(calls), false);
    BucketsSumToWindow(CountedLog(calls), Newest(calls), true);
  }

  /** No observation lags the newest second by a window or more. */
  ghost predicate Prompt(calls: seq<Call>) {
    forall k | 0 <= k < |calls| && calls[k].Observed? :: calls[k].sec > Newest(calls[..k + 1]) - WINDOW
  }

  lemma {:induction false} PromptRunsCountAsObserved(calls: seq<Call>)
    requires Prompt(calls)
    ensures CountedLog(calls) == Log(calls)
  {
    if calls != [] {
      var n := |calls| - 1;
      forall k | 0 <= k < n && calls[..n][k].Observed?
        ensures calls[..n][k].sec > Newest(calls[..n][..k + 1]) - WINDOW
      {
        assert calls[..n][..k + 1] == calls[..k + 1];
      }
      PromptRunsCountAsObserved(calls[..n]);
      assert calls[..n + 1] == calls;
    }
  }

  /** With prompt observations the ring agrees with counting the full log. */
  lemma {:induction false} SumCountsLog(calls: seq<Call>)
    requires Positive(calls) && Prompt(calls)
    ensures Total(After(calls).reqs) == WindowCount(Log(calls), Newest(calls), false)
    ensures Total(After(calls).errs) == WindowCount(Log(calls), Newest(calls), true)
  {
    SumCountsCountedLog(calls);
    PromptRunsCountAsObserved(calls);
  }

  /** And so does a sum asked for at any second: it covers the window up to that second, or to the newest seen. */
  lemma {:induction false} SumNowCountsLog(calls: seq<Call>, now: int)
    requires Positive(calls) && Prompt(calls) && now > 0
    ensures var r, newest := Advance(After(calls), now), Later(Newest(calls), now);
            && Total(r.reqs) == WindowCount(Log(calls), newest, false)
            && Total(r.errs) == WindowCount(Log(calls), newest, true)
  {
    var more := calls + [Summed(now)];
    assert more[..|calls|] == calls;
    assert After(more) == Apply(After(calls), Summed(now));
    assert Log(more) == Log(calls) + [] == Log(calls) && Newest(more) == Later(Newest(calls), now);
    forall k | 0 <= k < |more| && more[k].Observed? ensures more[k].sec > Newest(more[..k + 1]) - WINDOW {
      assert more[..k + 1] == calls[..k + 1];
    }
    SumCountsLog(more);
  }

  lemma WindowCountAppend(log: seq<Event>, e: Event, last: int, errsOnly: bool)
    ensures WindowCount(log + [e], last, errsOnly) == WindowCount(log, last, errsOnly) + One(Seen(e, last, errsOnly))
  {
    assert (log + [e])[..|log|] == log;
  }

  ghost predicate Seen(e: Event, last: int, errsOnly: bool) { InWindow(e, last) && (errsOnly ==> e.isErr) }

  /** The call `k` of a run was an observation that lagged by a window or more and is still counted, in a window up
      to `last`, at a second that is not its own. */
  ghost predicate Stray(calls: seq<Call>, k: nat, last: int, errsOnly: bool)
    requires k < |calls|
  {
    var newest := Newest(calls[..k + 1]);
    calls[k].Observed? && calls[k].sec <= newest - WINDOW &&
    Seen(Event(CountedAt(calls[k].sec, newest), calls[k].isErr), last, errsOnly)
  }

  ghost function Strays(calls: seq<Call>, n: nat, last: int, errsOnly: bool): nat
    requires n <= |calls|
  {
    if n == 0 then 0 else Strays(calls, n - 1, last, errsOnly) + One(Stray(calls, n - 1, last, errsOnly))
  }

  lemma {:induction false} NoStrays(calls: seq<Call>, n: nat, last: int, errsOnly: bool)
    requires n <= |calls|
    ensures Strays(calls, n, last, errsOnly) == 0 <==> forall k | 0 <= k < n :: !Stray(calls, k, last, errsOnly)
  {
    if n > 0 {
      NoStrays(calls, n - 1, last, errsOnly);
    }
  }

  lemma {:induction false} NewestIsLatest(calls: seq<Call>, n: nat)
    requires n <= |calls|
    ensures Newest(calls[..n]) <= Newest(calls)
    decreases |calls| - n
  {
    if n == |calls| {
      assert calls[..n] == calls;
    } else {
      NewestIsLatest(calls, n + 1);
      assert calls[..n + 1][..n] == calls[..n];
    }
  }

  /** One call more: how the counted log differs from the observed one by it. */
  lemma CountedLogStep(calls: seq<Call>, n: nat, last: int, errsOnly: bool)
    requires n < |calls| && last >= Newest(calls)
    ensures WindowCount(CountedLog(calls[..n + 1]), last, errsOnly)
            - WindowCount(CountedLog(calls[..n]), last, errsOnly)
         == WindowCount(Log(calls[..n + 1]), last, errsOnly) - WindowCount(Log(calls[..n]), last, errsOnly)
            + One(Stray(calls, n, last, errsOnly))
  {
    var before, more, call := calls[..n], calls[..n + 1], calls[n];
    assert more[..n] == before;
    if call.Observed? {
      var newest := Newest(more);
      NewestIsLatest(calls, n + 1);
      WindowCountAppend(Log(before), Event(call.sec, call.isErr), last, errsOnly);
      WindowCountAppend(CountedLog(before), Event(CountedAt(call.sec, newest), call.isErr), last, errsOnly);
    } else {
      assert Log(more) == Log(before) && CountedLog(more) == CountedLog(before);
    }
  }

  lemma {:induction false} StraysAreTheDifference(calls: seq<Call>, n: nat, last: int, errsOnly: bool)
    requires n <= |calls| && last >= Newest(calls)
    ensures WindowCount(CountedLog(calls[..n]), last, errsOnly)
         == WindowCount(Log(calls[..n]), last, errsOnly) + Strays(calls, n, last, errsOnly)
  {
    if n > 0 {
      StraysAreTheDifference(calls, n - 1, last, errsOnly);
      CountedLogStep(calls, n - 1, last, errsOnly);
    }
  }

  /** For every run whatever: the sums exceed the true counts by exactly the observations still counted at a second
      that is not theirs. */
  lemma {:induction false} SumExceedsByStrays(calls: seq<Call>)
    requires Positive(calls)
    ensures var newest := Newest(calls);
            && Total(After(calls).reqs)
               == WindowCount(Log(calls), newest, false) + Strays(calls, |calls|, newest, false)
            && Total(After(calls).errs)
               == WindowCount(Log(calls), newest, true) + Strays(calls, |calls|, newest, true)
  {
    SumCountsCountedLog(calls);
    StraysAreTheDifference(calls, |calls|, Newest(calls), false);
    StraysAreTheDifference(calls, |calls|, Newest(calls), true);
    assert calls[..|calls|] == calls;
  }

  /** So a sum is right if and only if no such observation is left in the window. */
  lemma {:induction false} SumIsRightIff(calls: seq<Call>)
    requires Positive(calls)
    ensures var newest := Newest(calls);
            && (Total(After(calls).reqs) == WindowCount(Log(calls), newest, false)
                <==> forall k | 0 <= k < |calls| :: !Stray(calls, k, newest, false))
            && (Total(After(calls).errs) == WindowCount(Log(calls), newest, true)
                <==> forall k | 0 <= k < |calls| :: !Stray(calls, k, newest, true))
  {
    SumExceedsByStrays(calls);
    NoStrays(calls, |calls|, Newest(calls), false);
    NoStrays(calls, |calls|, Newest(calls), true);
  }

  /** After an observation the sum is right if and only if it came promptly and no earlier stray is left. */
  lemma LaggingObservationIsOvercounted(calls: seq<Call>, sec: int, isErr: bool)
    requires Positive(calls) && sec > 0
    ensures var more := calls + [Observed(sec, isErr)];
            Total(After(more).reqs) == WindowCount(Log(more), Newest(more), false) <==>
            sec > Newest(more) - WINDOW && forall k | 0 <= k < |calls| :: !Stray(calls, k, Newest(more), false)
  {
    var more := calls + [Observed(sec, isErr)];
    assert more[..|more|] == more && more[|calls|] == Observed(sec, isErr);
    SumIsRightIff(more);
    forall k | 0 <= k < |calls| ensures Stray(more, k, Newest(more), false) <==> Stray(calls, k, Newest(more), false) {
      assert more[..k + 1] == calls[..k + 1] && more[k] == calls[k];
    }
    if sec <= Newest(more) - WINDOW {
      CountedAtSharesBucket(sec, Newest(more));
      assert Stray(more, |calls|, Newest(more), false);
    }
  }
}
