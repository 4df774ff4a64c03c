/** The Redis token-bucket limiter: the Lua script, the key's expiry and the Go wrapper around them.
    Times are in milliseconds; `rate` is in tokens per second. */
module TokenBucket {
  import opened Common

  datatype Limit = Limit(rate: real, burst: int) {
    ghost predicate Legal() { rate > 0.0 && burst > 0 }
  }

  /** The hash stored under the key. */
  datatype Bucket = Bucket(tokens: real, ts: int)

  datatype Reply = Reply(bucket: Bucket, allowed: bool)

  function Forward(from: int, to: int): nat { if to > from then to - from else 0 }

  function Earned(l: Limit, ms: int): real { ms as real / 1000.0 * l.rate }

  /** Tokens on hand once the script has refilled the bucket. */
  function Available(l: Limit, stored: Option<Bucket>, now: int): real {
    match stored
    case None => l.burst as real
    case Some(b) => MinR(l.burst as real, b.tokens + Earned(l, Forward(b.ts, now)))
  }

  function Admit(l: Limit, stored: Option<Bucket>, now: int): Reply {
    var t := Available(l, stored, now);
    if t >= 1.0 then Reply(Bucket(t - 1.0, now), true) else Reply(Bucket(t, now), false)
  }

  /** Seconds the key lives after each write. */
  function Ttl(l: Limit): int
    requires l.Legal()
  {
    -((-(l.burst as real / l.rate)).Floor) + 1
  }

  // ---------- The key, updated in place ----------

  class RedisKey {
    var data: Option<Bucket>
    var deadline: int

    /** What HMGET sees: nothing once the server clock has reached the deadline. */
    ghost function Live(server: int): Option<Bucket>
      reads this
    {
      if server < deadline then data else None
    }

    constructor ()
      ensures data == None
    {
      data := None;
      deadline := 0;
    }

    /** The script. `now` is the caller's clock, `server` the clock of the Redis server. */
    method Script(l: Limit, now: int, server: int) returns (allowed: bool)
      requires l.Legal()
      modifies this
      ensures var reply := Admit(l, old(Live(server)), now);
              allowed == reply.allowed && data == Some(reply.bucket)
      ensures deadline == server + 1000 * Ttl(l)
    {
      if server >= deadline {
        data := None;
      }
      var tokens: real, ts: int;
      match data {
        case None => tokens, ts := l.burst as real, now;
        case Some(b) => tokens, ts := b.tokens, b.ts;
      }
      var delta := (if now - ts > 0 then now - ts else 0) as real / 1000.0;
      assert delta * l.rate == Earned(l, Forward(ts, now));
      tokens := MinR(l.burst as real, tokens + delta * l.rate);
      assert tokens == Available(l, old(Live(server)), now);
      allowed := false;
      if tokens >= 1.0 {
        tokens := tokens - 1.0;
        allowed := true;
      }
      data := Some(Bucket(tokens, now));
      deadline := server + 1000 * Ttl(l);
    }

    /** The wrapper fails open: no limiter, a senseless limit or a script error all let the request through. */
    method Allow(enabled: bool, scriptRuns: bool, l: Limit, now: int, server: int) returns (allowed: bool)
      modifies this
      ensures !(enabled && l.Legal() && scriptRuns) ==> allowed && data == old(data) && deadline == old(deadline)
      ensures enabled && l.Legal() && scriptRuns ==>
                var reply := Admit(l, old(Live(server)), now);
                allowed == reply.allowed && data == Some(reply.bucket) && deadline == server + 1000 * Ttl(l)
    {
      if !enabled || l.rate <= 0.0 || l.burst <= 0 {
        return true;
      }
      if !scriptRuns {
        return true;
      }
      allowed := Script(l, now, server);
    }
  }

  // ---------- Runs of a key that never expires ----------

  /** What is stored just before request `k` of a run that starts with no key. */
  ghost function Before(l: Limit, times: seq<int>, k: nat): Option<Bucket>
    requires k <= |times|
  {
    if k == 0 then None else Some(Admit(l, Before(l, times, k - 1), times[k - 1]).bucket)
  }

  ghost predicate Allowed(l: Limit, times: seq<int>, k: nat)
    requires k < |times|
  {
    Admit(l, Before(l, times, k), times[k]).allowed
  }

  /** Requests let through among `i .. j-1`. */
  ghost function Admitted(l: Limit, times: seq<int>, i: nat, j: nat): nat
    requires j <= |times|
  {
    if j <= i then 0 else Admitted(l, times, i, j - 1) + (if Allowed(l, times, j - 1) then 1 else 0)
  }

  /** The time the bucket has seen pass: steps of the clock backwards count as no time at all. */
  ghost function Elapsed(times: seq<int>, k: nat): nat
    requires k < |times|
  {
    if k == 0 then 0 else Elapsed(times, k - 1) + Forward(times[k - 1], times[k])
  }

  /** What requests `j .. k-1` leave of a bucket that was full at request `j`. */
  ghost function Allowance(l: Limit, times: seq<int>, j: nat, k: nat): real
    requires j <= k < |times|
  {
    l.burst as real + Earned(l, Elapsed(times, k) - Elapsed(times, j)) - Admitted(l, times, j, k) as real
  }

  lemma EarnedAdds(l: Limit, a: int, b: int)
    ensures Earned(l, a + b) == Earned(l, a) + Earned(l, b)
  {
    assert (a + b) as real / 1000.0 == a as real / 1000.0 + b as real / 1000.0;
    var x, y := a as real / 1000.0, b as real / 1000.0;
    assert (x + y) * l.rate == x * l.rate + y * l.rate;
  }

  lemma EarnedMonotone(l: Limit, a: int, b: int)
    requires l.Legal() && a <= b
    ensures Earned(l, a) <= Earned(l, b)
  {
    var x, y := a as real / 1000.0, b as real / 1000.0;
    assert x <= y;
    assert (y - x) * l.rate >= 0.0;
    assert y * l.rate == x * l.rate + (y - x) * l.rate;
  }

  /** The bucket holds exactly the least of all allowances, one for every earlier starting point. */
  lemma {:induction false} TokensAreTheLeastAllowance(l: Limit, times: seq<int>, k: nat) returns (tight: nat)
    requires l.Legal() && k < |times|
    ensures forall j | 0 <= j <= k :: Available(l, Before(l, times, k), times[k]) <= Allowance(l, times, j, k)
    ensures tight <= k && Available(l, Before(l, times, k), times[k]) == Allowance(l, times, tight, k)
  {
    assert Earned(l, 0) == 0.0;
    if k == 0 {
      return 0;
    }
    var t := TokensAreTheLeastAllowance(l, times, k - 1);
    var d := Forward(times[k - 1], times[k]);
    forall j | 0 <= j < k
      ensures Allowance(l, times, j, k)
           == Allowance(l, times, j, k - 1) + Earned(l, d) - (if Allowed(l, times, k - 1) then 1.0 else 0.0)
    {
      EarnedAdds(l, Elapsed(times, k - 1) - Elapsed(times, j), d);
    }
    assert Allowance(l, times, k, k) == l.burst as real;
    tight := if Available(l, Before(l, times, k), times[k]) == l.burst as real then k else t;
  }

  /** Letting request `k` through, on top of all let through since request `j`, keeps to a full bucket
      plus what it earns while time passes as the bucket sees it. */
  ghost predicate Fits(l: Limit, times: seq<int>, j: nat, k: nat)
    requires j <= k < |times|
  {
    Admitted(l, times, j, k) as real + 1.0 <= l.burst as real + Earned(l, Elapsed(times, k) - Elapsed(times, j))
  }

  /** Exact admission, with no assumption on the clock at all. */
  lemma ExactAdmission(l: Limit, times: seq<int>, k: nat)
    requires l.Legal() && k < |times|
    ensures Allowed(l, times, k) <==> forall j | 0 <= j <= k :: Fits(l, times, j, k)
  {
    var tight := TokensAreTheLeastAllowance(l, times, k);
    assert Fits(l, times, tight, k) <==> Allowance(l, times, tight, k) >= 1.0;
    if Allowed(l, times, k) {
      forall j | 0 <= j <= k ensures Fits(l, times, j, k) {
        assert Allowance(l, times, j, k) >= 1.0;
      }
    }
  }

  /** From request `j` to request `k` the caller's clock never steps back. */
  ghost predicate NeverBack(times: seq<int>, j: nat, k: nat)
    requires k < |times|
  {
    forall a, b | j <= a <= b <= k :: times[a] <= times[b]
  }

  lemma {:induction false} ElapsedIsClockTime(times: seq<int>, j: nat, k: nat)
    requires j <= k < |times| && NeverBack(times, j, k)
    ensures Elapsed(times, k) - Elapsed(times, j) == times[k] - times[j]
  {
    if j < k {
      ElapsedIsClockTime(times, j, k - 1);
    }
  }

  /** From request `j` to request `k` the caller's clock never moves on. */
  ghost predicate NeverForward(times: seq<int>, j: nat, k: nat)
    requires k < |times|
  {
    forall a, b | j <= a <= b <= k :: times[a] >= times[b]
  }

  /** While the clock stands still or steps back, the bucket sees no time pass. */
  lemma {:induction false} NoTimeWhileClockStepsBack(times: seq<int>, j: nat, k: nat)
    requires j <= k < |times| && NeverForward(times, j, k)
    ensures Elapsed(times, k) == Elapsed(times, j)
  {
    if j < k {
      NoTimeWhileClockStepsBack(times, j, k - 1);
    }
  }

  /** The same budget read off the caller's clock. */
  ghost predicate FitsByClock(l: Limit, times: seq<int>, j: nat, k: nat)
    requires j <= k < |times|
  {
    Admitted(l, times, j, k) as real + 1.0 <= l.burst as real + Earned(l, times[k] - times[j])
  }

  /** With a clock that has not stepped back, admission is exact by the clock itself. */
  lemma ExactAdmissionByClock(l: Limit, times: seq<int>, k: nat)
    requires l.Legal() && k < |times| && NeverBack(times, 0, k)
    ensures Allowed(l, times, k) <==> forall j | 0 <= j <= k :: FitsByClock(l, times, j, k)
  {
    ExactAdmission(l, times, k);
    forall j | 0 <= j <= k ensures Fits(l, times, j, k) == FitsByClock(l, times, j, k) {
      ElapsedIsClockTime(times, j, k);
    }
    if !Allowed(l, times, k) {
      var j :| 0 <= j <= k && !Fits(l, times, j, k);
      assert !FitsByClock(l, times, j, k);
    }
  }

  /** A second earns `rate` tokens, and other spans in proportion. */
  lemma EarnedIsRate(l: Limit, ms: int)
    ensures 1000.0 * Earned(l, ms) == l.rate * ms as real
  {
    var secs := ms as real / 1000.0;
    assert 1000.0 * secs == ms as real;
    assert 1000.0 * (secs * l.rate) == (1000.0 * secs) * l.rate;
  }

  /** The budget with everything spelled out: the requests past a full bucket, against rate and clock. */
  ghost predicate FitsInSeconds(l: Limit, times: seq<int>, j: nat, k: nat)
    requires j <= k < |times|
  {
    1000.0 * (Admitted(l, times, j, k) + 1 - l.burst) as real <= l.rate * (times[k] - times[j]) as real
  }

  lemma ExactAdmissionInSeconds(l: Limit, times: seq<int>, k: nat)
    requires l.Legal() && k < |times| && NeverBack(times, 0, k)
    ensures Allowed(l, times, k) <==> forall j | 0 <= j <= k :: FitsInSeconds(l, times, j, k)
  {
    ExactAdmissionByClock(l, times, k);
    forall j | 0 <= j <= k ensures FitsByClock(l, times, j, k) == FitsInSeconds(l, times, j, k) {
      EarnedIsRate(l, times[k] - times[j]);
    }
    if !Allowed(l, times, k) {
      var j :| 0 <= j <= k && !FitsByClock(l, times, j, k);
      assert !FitsInSeconds(l, times, j, k);
    }
  }

  /** No window, whatever the requests in it, lets more through than a full bucket plus what it earns. */
  lemma {:induction false} WindowBound(l: Limit, times: seq<int>, i: nat, k: nat)
    requires l.Legal() && i <= k < |times|
    ensures Admitted(l, times, i, k + 1) as real <= l.burst as real + Earned(l, Elapsed(times, k) - Elapsed(times, i))
  {
    if Allowed(l, times, k) {
      ExactAdmission(l, times, k);
      assert Fits(l, times, i, k);
    } else if i == k {
      EarnedMonotone(l, 0, 0);
    } else {
      WindowBound(l, times, i, k - 1);
      EarnedMonotone(l, Elapsed(times, k - 1) - Elapsed(times, i), Elapsed(times, k) - Elapsed(times, i));
    }
  }

  /** What a window lets through by the caller's clock: a full bucket plus what the clock says it earned. */
  ghost predicate WithinBudget(l: Limit, times: seq<int>, i: nat, k: nat)
    requires i <= k < |times|
  {
    Admitted(l, times, i, k + 1) as real <= l.burst as real + Earned(l, times[k] - times[i])
  }

  /** In a window in which the clock does not step back, the bound holds by the clock. */
  lemma WindowBoundByClock(l: Limit, times: seq<int>, i: nat, k: nat)
    requires l.Legal() && i <= k < |times| && NeverBack(times, i, k)
    ensures WithinBudget(l, times, i, k)
  {
    WindowBound(l, times, i, k);
    ElapsedIsClockTime(times, i, k);
  }

  /** The caller's clock never steps back before a request that it puts no earlier than the first. */
  ghost predicate NeverBackBeforeReturning(times: seq<int>) {
    forall k | 0 <= k < |times| && times[0] <= times[k] :: NeverBack(times, 0, k)
  }

  /** The bucket never sees less time pass than the clock shows, and sees more as soon as the clock has stepped back. */
  lemma {:induction false} ElapsedAtLeastClockTime(times: seq<int>, k: nat)
    requires k < |times|
    ensures Elapsed(times, k) >= times[k] - times[0]
    ensures Elapsed(times, k) == times[k] - times[0] ==> NeverBack(times, 0, k)
  {
    if k > 0 {
      ElapsedAtLeastClockTime(times, k - 1);
    }
  }

  /** A limit under which the first `k` requests use up the bucket and the next one arrives to the first new token. */
  function Tight(k: nat, elapsed: nat): Limit
    requires elapsed > 0
  {
    Limit(1000.0 / elapsed as real, k)
  }

  lemma EarnsOne(k: nat, elapsed: nat)
    requires elapsed > 0
    ensures Earned(Tight(k, elapsed), elapsed) == 1.0
  {
    var e := elapsed as real;
    assert e / 1000.0 * (1000.0 / e) == 1.0;
  }

  lemma {:induction false} AllAdmitted(l: Limit, times: seq<int>, k: nat)
    requires l.Legal() && k < |times| && k <= l.burst
    requires k < l.burst || Earned(l, Elapsed(times, k)) >= 1.0
    ensures Admitted(l, times, 0, k + 1) == k + 1
  {
    if k > 0 {
      AllAdmitted(l, times, k - 1);
    }
    ExactAdmission(l, times, k);
    forall j | 0 <= j <= k ensures Fits(l, times, j, k) {
      AdmittedAtMost(l, times, j, k);
      ElapsedGrows(times, j, k);
      EarnedMonotone(l, 0, Elapsed(times, k) - Elapsed(times, j));
    }
  }

  lemma {:induction false} ElapsedGrows(times: seq<int>, j: nat, k: nat)
    requires j <= k < |times|
    ensures Elapsed(times, j) <= Elapsed(times, k)
  {
    if j < k {
      ElapsedGrows(times, j, k - 1);
    }
  }

  lemma {:induction false} AdmittedAtMost(l: Limit, times: seq<int>, i: nat, j: nat)
    requires i <= j <= |times|
    ensures Admitted(l, times, i, j) <= j - i
  {
    if i < j {
      AdmittedAtMost(l, times, i, j - 1);
    }
  }

  /** A clock that has stepped back lets some limit be exceeded. */
  lemma BackwardClockExceedsBudget(times: seq<int>, k: nat) returns (l: Limit)
    requires k < |times| && times[0] <= times[k] && !NeverBack(times, 0, k)
    ensures l.Legal() && !WithinBudget(l, times, 0, k)
  {
    ElapsedAtLeastClockTime(times, k);
    var elapsed, span := Elapsed(times, k), times[k] - times[0];
    assert elapsed > span >= 0 && k > 0;
    l := Tight(k, elapsed);
    EarnsOne(k, elapsed);
    AllAdmitted(l, times, k);
    EarnedAdds(l, span, elapsed - span);
    assert Earned(l, elapsed - span) > 0.0;
  }

  /** By the caller's clock every limit is kept in every window from the first request on to one that is not put
      earlier, if and only if the clock never steps back before such a request. */
  lemma WindowBoundByClockIff(times: seq<int>)
    ensures (forall l: Limit, k: nat | l.Legal() && k < |times| && times[0] <= times[k] :: WithinBudget(l, times, 0, k))
       <==> NeverBackBeforeReturning(times)
  {
    if NeverBackBeforeReturning(times) {
      forall l: Limit, k: nat | l.Legal() && k < |times| && times[0] <= times[k] ensures WithinBudget(l, times, 0, k) {
        WindowBoundByClock(l, times, 0, k);
      }
    } else {
      var k: nat :| k < |times| && times[0] <= times[k] && !NeverBack(times, 0, k);
      var l := BackwardClockExceedsBudget(times, k);
    }
  }

  /** Stepping the clock back and forth earns tokens that clock time alone does not explain. */
  lemma BackwardClockBreaksWindowBound()
    ensures exists l: Limit, times: seq<int> ::
              l.Legal() && |times| == 3 && times[0] == times[2] &&
              Admitted(l, times, 0, 3) as real > l.burst as real + Earned(l, times[2] - times[0])
  {
    var l, times := Limit(1.0, 1), [1000, 0, 1000];
    assert Admit(l, Before(l, times, 0), 1000) == Reply(Bucket(0.0, 1000), true);
    assert Before(l, times, 1) == Some(Bucket(0.0, 1000));
    assert Admit(l, Before(l, times, 1), 0) == Reply(Bucket(0.0, 0), false);
    assert Before(l, times, 2) == Some(Bucket(0.0, 0));
    assert Admit(l, Before(l, times, 2), 1000) == Reply(Bucket(0.0, 1000), true);
    assert Allowed(l, times, 0) && !Allowed(l, times, 1) && Allowed(l, times, 2);
    assert Admitted(l, times, 0, 1) == 1;
    assert Admitted(l, times, 0, 2) == 1;
    assert Admitted(l, times, 0, 3) == 2;
    assert l.Legal() && |times| == 3 && times[0] == times[2] &&
           Admitted(l, times, 0, 3) as real > l.burst as real + Earned(l, times[2] - times[0]);
  }

  ghost predicate Spaced(l: Limit, times: seq<int>) {
    forall k | 0 < k < |times| :: Earned(l, times[k] - times[k - 1]) >= 1.0
  }

  /** A client whose requests are at least 1/rate apart is never refused. */
  lemma {:induction false} SpacedClientIsNeverRefused(l: Limit, times: seq<int>, k: nat)
    requires l.Legal() && k < |times| && Spaced(l, times)
    ensures Allowed(l, times, k)
  {
    if k > 0 {
      SpacedClientIsNeverRefused(l, times, k - 1);
      var gap := times[k] - times[k - 1];
      if gap <= 0 {
        EarnedMonotone(l, gap, 0);
        assert false;
      }
    }
  }

  // ---------- Expiry ----------

  /** A request as the script sees it: the caller's clock and the server's. */
  datatype Request = Request(now: int, server: int)

  /** The stored hash and its deadline before request `k`, expiry included. */
  ghost function Expiring(l: Limit, reqs: seq<Request>, k: nat): (Option<Bucket>, int)
    requires l.Legal() && k <= |reqs|
    decreases k, 0
  {
    if k == 0 then (None, 0)
    else (Some(Admit(l, Visible(l, reqs, k - 1), reqs[k - 1].now).bucket), reqs[k - 1].server + 1000 * Ttl(l))
  }

  ghost function Visible(l: Limit, reqs: seq<Request>, k: nat): Option<Bucket>
    requires l.Legal() && k < |reqs|
    decreases k, 1
  {
    var (stored, deadline) := Expiring(l, reqs, k);
    if reqs[k].server < deadline then stored else None
  }

  ghost function CallerClock(reqs: seq<Request>): seq<int> {
    seq(|reqs|, i requires 0 <= i < |reqs| => reqs[i].now)
  }

  /** Between consecutive requests the server's clock gains at most `drift` milliseconds on the caller's. */
  ghost predicate DriftAtMost(reqs: seq<Request>, drift: int) {
    forall k | 0 < k < |reqs| :: (reqs[k].server - reqs[k - 1].server) - (reqs[k].now - reqs[k - 1].now) <= drift
  }

  lemma TtlRefillsTheBucket(l: Limit, ms: int)
    requires l.Legal() && ms >= 1000 * (Ttl(l) - 1)
    ensures Earned(l, ms) >= l.burst as real
  {
    var secs := l.burst as real / l.rate;
    assert (Ttl(l) - 1) as real >= secs;
    var x := ms as real / 1000.0;
    assert x >= secs;
    assert (x - secs) * l.rate >= 0.0;
    assert x * l.rate == secs * l.rate + (x - secs) * l.rate;
    assert secs * l.rate == l.burst as real;
  }

  /** The lifetime is the least number of whole seconds that fills an empty bucket with a second to spare. */
  lemma TtlIsLeast(l: Limit, secs: int)
    requires l.Legal()
    ensures secs >= Ttl(l) <==> (secs - 1) as real * l.rate >= l.burst as real
  {
    var full, x := l.burst as real / l.rate, (secs - 1) as real;
    assert full * l.rate == l.burst as real;
    TimesRate(l, x, full);
    assert secs >= Ttl(l) <==> x >= full;
  }

  lemma TimesRate(l: Limit, x: real, y: real)
    requires l.Legal()
    ensures x >= y <==> x * l.rate >= y * l.rate
  {
    var d := x - y;
    assert d * l.rate == x * l.rate - y * l.rate;
    assert d > 0.0 ==> d * l.rate > 0.0;
    assert d < 0.0 ==> d * l.rate < 0.0;
  }

  lemma {:induction false} TokensStayInRange(l: Limit, times: seq<int>, k: nat)
    requires l.Legal() && 0 < k <= |times|
    ensures 0.0 <= Before(l, times, k).value.tokens <= l.burst as real
  {
    if k > 1 {
      TokensStayInRange(l, times, k - 1);
      EarnedMonotone(l, 0, Forward(times[k - 2], times[k - 1]));
    }
  }

  /** The reply to request `k`, and what the never-expiring key would reply. */
  ghost function ReplyExpiring(l: Limit, reqs: seq<Request>, k: nat): Reply
    requires l.Legal() && k < |reqs|
  {
    Admit(l, Visible(l, reqs, k), reqs[k].now)
  }

  ghost function ReplyKept(l: Limit, reqs: seq<Request>, k: nat): Reply
    requires l.Legal() && k < |reqs|
  {
    Admit(l, Before(l, CallerClock(reqs), k), reqs[k].now)
  }

  /** By the time a key can expire, the caller's clock has run long enough to fill the bucket. */
  ghost predicate RefillsInTime(l: Limit, drift: int)
    requires l.Legal()
  {
    Earned(l, 1000 * Ttl(l) - drift) >= l.burst as real
  }

  /** Dropping an idle key and starting it full again changes no stored state and hence no reply. */
  lemma {:induction false} ExpiryIsInvisible(l: Limit, reqs: seq<Request>, k: nat, drift: int)
    requires l.Legal() && k < |reqs| && DriftAtMost(reqs, drift) && RefillsInTime(l, drift)
    ensures Expiring(l, reqs, k).0 == Before(l, CallerClock(reqs), k)
    ensures ReplyExpiring(l, reqs, k) == ReplyKept(l, reqs, k)
  {
    var times := CallerClock(reqs);
    if k > 0 {
      ExpiryIsInvisible(l, reqs, k - 1, drift);
      if reqs[k].server >= Expiring(l, reqs, k).1 {
        TokensStayInRange(l, times, k);
        var b := Before(l, times, k).value;
        assert b.ts == reqs[k - 1].now;
        EarnedMonotone(l, 1000 * Ttl(l) - drift, Forward(b.ts, reqs[k].now));
      }
    }
  }

  /** A second of drift is always harmless. */
  lemma ASecondOfDriftIsInvisible(l: Limit, reqs: seq<Request>, k: nat)
    requires l.Legal() && k < |reqs| && DriftAtMost(reqs, 1000)
    ensures ReplyExpiring(l, reqs, k) == ReplyKept(l, reqs, k)
  {
    TtlRefillsTheBucket(l, 1000 * Ttl(l) - 1000);
    ExpiryIsInvisible(l, reqs, k, 1000);
  }

  ghost predicate SameDecision(l: Limit, reqs: seq<Request>, k: nat)
    requires l.Legal() && k < |reqs|
  {
    ReplyExpiring(l, reqs, k).allowed == ReplyKept(l, reqs, k).allowed
  }

  /** A burst that drains the bucket at time zero, and another the moment the key has expired. */
  ghost function TwoBursts(l: Limit, drift: int): seq<Request>
    requires l.Legal()
  {
    var late := Request(1000 * Ttl(l) - drift, 1000 * Ttl(l));
    seq(2 * l.burst, i requires 0 <= i < 2 * l.burst => if i < l.burst then Request(0, 0) else late)
  }

  lemma {:induction false} FirstBurstDrains(l: Limit, drift: int, k: nat)
    requires l.Legal() && 0 < k <= l.burst
    ensures var left := Some(Bucket((l.burst - k) as real, 0));
            Before(l, CallerClock(TwoBursts(l, drift)), k) == left && Expiring(l, TwoBursts(l, drift), k).0 == left
  {
    assert Earned(l, 0) == 0.0;
    TtlIsMoreThanASecond(l);
    if k > 1 {
      FirstBurstDrains(l, drift, k - 1);
    }
  }

  /** The expired key, started afresh, lets the whole second burst through. */
  lemma {:induction false} SecondBurstPasses(l: Limit, drift: int, m: nat)
    requires l.Legal() && m < l.burst
    ensures var reqs := TwoBursts(l, drift);
            Available(l, Visible(l, reqs, l.burst + m), reqs[l.burst + m].now) == (l.burst - m) as real
  {
    assert Earned(l, 0) == 0.0;
    TtlIsMoreThanASecond(l);
    if m > 0 {
      SecondBurstPasses(l, drift, m - 1);
    }
  }

  /** A second request at the same instant finds one token less. */
  lemma NextAtOnce(l: Limit, times: seq<int>, k: nat)
    requires l.Legal() && k + 1 < |times| && times[k + 1] == times[k] && Allowed(l, times, k)
    ensures Available(l, Before(l, times, k + 1), times[k + 1]) == Available(l, Before(l, times, k), times[k]) - 1.0
  {
    assert Earned(l, 0) == 0.0;
  }

  /** What the never-expiring key can serve of the second burst. */
  ghost function Refilled(l: Limit, drift: int): real
    requires l.Legal()
  {
    MinR(l.burst as real, Earned(l, Forward(0, 1000 * Ttl(l) - drift)))
  }

  lemma {:induction false} SecondBurstOnTheRest(l: Limit, drift: int, m: nat)
    requires l.Legal() && m < l.burst
    requires forall k | l.burst <= k < l.burst + m :: Allowed(l, CallerClock(TwoBursts(l, drift)), k)
    ensures Available(l, Before(l, CallerClock(TwoBursts(l, drift)), l.burst + m), TwoBursts(l, drift)[l.burst + m].now)
         == Refilled(l, drift) - m as real
  {
    var times := CallerClock(TwoBursts(l, drift));
    if m == 0 {
      FirstBurstDrains(l, drift, l.burst);
    } else {
      SecondBurstOnTheRest(l, drift, m - 1);
      NextAtOnce(l, times, l.burst + m - 1);
    }
  }

  /** Unless it refills in time, it refuses one of them, which the expired key, started afresh, does not. */
  lemma SecondBurstDiffers(l: Limit, drift: int) returns (k: nat)
    requires l.Legal() && !RefillsInTime(l, drift)
    ensures k < |TwoBursts(l, drift)| && !SameDecision(l, TwoBursts(l, drift), k)
  {
    var reqs, n := TwoBursts(l, drift), l.burst;
    var times := CallerClock(reqs);
    if i :| n <= i < 2 * n - 1 && !Allowed(l, times, i) {
      k := i;
    } else {
      k := 2 * n - 1;
      SecondBurstOnTheRest(l, drift, n - 1);
      assert Earned(l, 0) == 0.0;
    }
    SecondBurstPasses(l, drift, k - n);
    assert n + (k - n) == k;
  }

  /** With the second of slack the ceiling leaves, expiry is exactly this visible: no run within a drift changes
      a decision if and only if the bucket refills before the key can expire. */
  lemma ExpiryIsInvisibleIff(l: Limit, drift: nat)
    requires l.Legal()
    ensures RefillsInTime(l, drift) <==>
            forall reqs: seq<Request>, k: nat | k < |reqs| && DriftAtMost(reqs, drift) :: SameDecision(l, reqs, k)
  {
    if RefillsInTime(l, drift) {
      forall reqs: seq<Request>, k: nat | k < |reqs| && DriftAtMost(reqs, drift) ensures SameDecision(l, reqs, k) {
        ExpiryIsInvisible(l, reqs, k, drift);
      }
    } else {
      assert DriftAtMost(TwoBursts(l, drift), drift);
      var k := SecondBurstDiffers(l, drift);
    }
  }

  lemma TtlIsMoreThanASecond(l: Limit)
    requires l.Legal()
    ensures Ttl(l) >= 2
  {
    assert l.burst as real / l.rate > 0.0;
  }
}
