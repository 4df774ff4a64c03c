/** Reservoir sampling of the calibration set, and an exact count over every sequence of random draws. */
module Reservoir {
  import opened Common

  /** A source line, with whether its messages make a usable conversation and the text they render to. */
  datatype Line = Line(eligible: bool, text: string)

  datatype Sample = Sample(text: string, sourceLine: nat)

  datatype Outcome = Kept(reservoir: seq<Sample>, validCount: nat) | BadArgument | TooFewRows(found: nat)

  /** The usable rows, in file order, with one-based line numbers. */
  function Eligible(lines: seq<Line>): seq<Sample> {
    if lines == [] then []
    else
      var n := |lines|;
      Eligible(lines[..n - 1]) + (if lines[n - 1].eligible then [Sample(lines[n - 1].text, n)] else [])
  }

  function DrawsNeeded(n: nat, k: nat): nat { if n <= k then 0 else n - k }

  /** The reservoir of size `k` after all of `rows`, given the draw made for each row past the first `k`. */
  function Keep<T>(rows: seq<T>, k: nat, draws: seq<nat>): (r: seq<T>)
    requires |draws| == DrawsNeeded(|rows|, k)
    ensures |r| == if |rows| <= k then |rows| else k
  {
    if |rows| <= k then rows
    else
      var n := |rows|;
      var before := Keep(rows[..n - 1], k, draws[..n - 1 - k]);
      var replacement := draws[n - 1 - k];
      if replacement < k then before[replacement := rows[n - 1]] else before
  }

  /** The draws a generator makes: `randrange(m)` is asked at most once for each `m`. */
  function DrawsOf(randrange: nat -> nat, n: nat, k: nat): seq<nat> {
    seq(DrawsNeeded(n, k), i requires i >= 0 => randrange(k + 1 + i))
  }

  /** What the reservoir holds after the usable rows `rows`. */
  ghost function KeptFrom(rows: seq<Sample>, k: nat, randrange: nat -> nat): seq<Sample> {
    Keep(rows, k, DrawsOf(randrange, |rows|, k))
  }

  method BuildReservoir(lines: seq<Line>, samples: int, randrange: nat -> nat) returns (r: Outcome)
    requires forall m | m > 0 :: randrange(m) < m
    ensures samples < 1 ==> r == BadArgument
    ensures samples >= 1 && |Eligible(lines)| < samples ==> r == TooFewRows(|Eligible(lines)|)
    ensures samples >= 1 && |Eligible(lines)| >= samples ==>
              r == Kept(KeptFrom(Eligible(lines), samples, randrange), |Eligible(lines)|)
    ensures r.TooFewRows? ==> r.found == |Usable(lines)| < samples
    ensures r.Kept? ==> samples <= |Usable(lines)| == r.validCount && |r.reservoir| == samples
  {
    EligibleListsUsableLines(lines);
    if samples < 1 {
      return BadArgument;
    }
    var reservoir: seq<Sample> := [];
    var validCount := 0;
    var lineNumber := 0;
    ghost var seen: seq<Sample> := [];
    while lineNumber < |lines|
      invariant 0 <= lineNumber <= |lines|
      invariant seen == Eligible(lines[..lineNumber]) && validCount == |seen|
      invariant reservoir == KeptFrom(seen, samples, randrange)
    {
      var line := lines[lineNumber];
      lineNumber := lineNumber + 1;
      assert lines[..lineNumber][..lineNumber - 1] == lines[..lineNumber - 1];
      if !line.eligible {
        continue;
      }
      var sample := Sample(line.text, lineNumber);
      KeepAppend(seen, sample, samples, randrange);
      seen := seen + [sample];
      validCount := validCount + 1;
      if |reservoir| < samples {
        reservoir := reservoir + [sample];
        continue;
      }
      var replacement := randrange(validCount);
      if replacement < samples {
        reservoir := reservoir[replacement := sample];
      }
    }
    assert lines[..lineNumber] == lines;
    if |reservoir| < samples {
      return TooFewRows(|reservoir|);
    }
    r := Kept(reservoir, validCount);
  }

  lemma KeepAppend(rows: seq<Sample>, x: Sample, k: nat, randrange: nat -> nat)
    ensures var n, before := |rows| + 1, KeptFrom(rows, k, randrange);
            KeptFrom(rows + [x], k, randrange) ==
            (if n <= k then before + [x] else if randrange(n) < k then before[randrange(n) := x] else before)
  {
    var n := |rows| + 1;
    assert (rows + [x])[..n - 1] == rows;
    if n > k {
      assert DrawsOf(randrange, n, k)[..n - 1 - k] == DrawsOf(randrange, n - 1, k);
    }
  }

  // ---------- What the reservoir holds ----------

  /** `sample` is the usable row of its line. */
  ghost predicate ComesFrom(sample: Sample, lines: seq<Line>) {
    1 <= sample.sourceLine <= |lines| && lines[sample.sourceLine - 1] == Line(true, sample.text)
  }

  lemma ComesFromPrefix(sample: Sample, lines: seq<Line>, n: nat)
    requires n <= |lines| && ComesFrom(sample, lines[..n])
    ensures ComesFrom(sample, lines) && sample.sourceLine <= n
  {
  }

  /** The rows of a prefix come from it, each from a line of its own. */
  ghost predicate ComeFrom(rows: seq<Sample>, lines: seq<Line>, n: nat) {
    Distinct(rows) && forall i | 0 <= i < |rows| :: ComesFrom(rows[i], lines) && rows[i].sourceLine <= n
  }

  lemma NextLineIsNew(rows: seq<Sample>, lines: seq<Line>, n: nat)
    requires n < |lines| && ComeFrom(rows, lines[..n], n) && lines[n].eligible
    ensures ComeFrom(rows + [Sample(lines[n].text, n + 1)], lines, n + 1)
  {
    forall i | 0 <= i < |rows| ensures ComesFrom(rows[i], lines) {
      ComesFromPrefix(rows[i], lines, n);
    }
  }

  lemma SkippedLine(rows: seq<Sample>, lines: seq<Line>, n: nat)
    requires n < |lines| && ComeFrom(rows, lines[..n], n)
    ensures ComeFrom(rows, lines, n + 1)
  {
    forall i | 0 <= i < |rows| ensures ComesFrom(rows[i], lines) {
      ComesFromPrefix(rows[i], lines, n);
    }
  }

  /** Rows of one file never coincide: each carries its own line number. */
  lemma {:induction false} EligibleRowsAreDistinct(lines: seq<Line>)
    ensures ComeFrom(Eligible(lines), lines, |lines|)
  {
    if lines != [] {
      var n, before := |lines| - 1, Eligible(lines[..|lines| - 1]);
      EligibleRowsAreDistinct(lines[..n]);
      if lines[n].eligible {
        NextLineIsNew(before, lines, n);
      } else {
        assert before + [] == before;
        SkippedLine(before, lines, n);
      }
    }
  }

  /** The usable lines, counted from zero. */
  ghost function Usable(lines: seq<Line>): set<nat> { set n: nat | n < |lines| && lines[n].eligible }

  ghost predicate InFileOrder(rows: seq<Sample>) {
    forall i, j | 0 <= i < j < |rows| :: rows[i].sourceLine < rows[j].sourceLine
  }

  /** Every usable line is among the rows, under its own number counted from one. */
  ghost predicate HasAllUsable(rows: seq<Sample>, lines: seq<Line>) {
    forall n | n in Usable(lines) :: Sample(lines[n].text, n + 1) in rows
  }

  lemma UsableStep(lines: seq<Line>)
    requires lines != []
    ensures var n := |lines| - 1;
            Usable(lines) == Usable(lines[..n]) + (if lines[n].eligible then {n} else {}) && n !in Usable(lines[..n])
  {
  }

  lemma AllUsableStep(rows: seq<Sample>, lines: seq<Line>)
    requires lines != [] && HasAllUsable(rows, lines[..|lines| - 1])
    ensures !lines[|lines| - 1].eligible ==> HasAllUsable(rows, lines)
    ensures HasAllUsable(rows + [Sample(lines[|lines| - 1].text, |lines|)], lines)
  {
    UsableStep(lines);
    var n := |lines| - 1;
    assert forall i | i in Usable(lines[..n]) :: lines[..n][i] == lines[i];
  }

  /** None is left out: the rows are those of all usable lines, each once, in the order of the file. */
  lemma {:induction false} EligibleListsUsableLines(lines: seq<Line>)
    ensures HasAllUsable(Eligible(lines), lines) && InFileOrder(Eligible(lines))
    ensures |Eligible(lines)| == |Usable(lines)|
  {
    if lines != [] {
      var n, before := |lines| - 1, Eligible(lines[..|lines| - 1]);
      EligibleListsUsableLines(lines[..n]);
      UsableStep(lines);
      AllUsableStep(before, lines);
      EligibleRowsAreDistinct(lines[..n]);
      assert before + [] == before;
    }
  }

  /** Always min(k, rows) distinct rows of the stream. */
  lemma {:induction false} KeepsDistinctRows<T>(rows: seq<T>, k: nat, draws: seq<nat>)
    requires Distinct(rows) && |draws| == DrawsNeeded(|rows|, k)
    ensures Distinct(Keep(rows, k, draws))
    ensures |Keep(rows, k, draws)| == if |rows| < k then |rows| else k
    ensures forall i | 0 <= i < |Keep(rows, k, draws)| :: Keep(rows, k, draws)[i] in rows
  {
    if |rows| > k {
      var n := |rows|;
      KeepsDistinctRows(rows[..n - 1], k, draws[..n - 1 - k]);
      var before := Keep(rows[..n - 1], k, draws[..n - 1 - k]);
      assert forall i | 0 <= i < |before| :: before[i] in rows[..n - 1];
    }
  }

  // ---------- All draw sequences ----------

  ghost function Extend(prefixes: set<seq<nat>>, m: nat): set<seq<nat>> {
    set a, d: nat | a in prefixes && d < m :: a + [d]
  }

  /** Every sequence of draws that can be made for `n` rows, one entry for each. */
  ghost function AllDraws(n: nat, k: nat): set<seq<nat>> {
    if n <= k then {[]} else Extend(AllDraws(n - 1, k), n)
  }

  /** It leaves none out and adds none: the j-th draw is any number below the count of rows seen by then. */
  lemma {:induction false} AllDrawsAreAllDraws(n: nat, k: nat, draws: seq<nat>)
    ensures draws in AllDraws(n, k) <==>
            |draws| == DrawsNeeded(n, k) && forall j | 0 <= j < |draws| :: draws[j] < k + 1 + j
  {
    if n <= k {
    } else if draws == [] {
      assert forall a: seq<nat>, d: nat :: |a + [d]| > 0;
    } else {
      var init, d := draws[..|draws| - 1], draws[|draws| - 1];
      assert draws == init + [d];
      AllDrawsAreAllDraws(n - 1, k, init);
      forall a: seq<nat>, e: nat | a + [e] == draws ensures a == init && e == d {
        assert a == (a + [e])[..|a|];
        assert e == (a + [e])[|a|];
      }
    }
  }

  /** The draws a run really makes are one of them. */
  lemma RunDrawsAreCounted(randrange: nat -> nat, n: nat, k: nat)
    requires forall m | m > 0 :: randrange(m) < m
    ensures DrawsOf(randrange, n, k) in AllDraws(n, k)
  {
    AllDrawsAreAllDraws(n, k, DrawsOf(randrange, n, k));
  }

  ghost predicate Hits<T>(rows: seq<T>, k: nat, x: T, draws: seq<nat>) {
    |draws| == DrawsNeeded(|rows|, k) && x in Keep(rows, k, draws)
  }

  /** The test "this row is kept". */
  ghost function Keeping<T>(rows: seq<T>, k: nat, x: T): seq<nat> -> bool { draws => Hits(rows, k, x, draws) }

  ghost predicate Leaves<T>(rows: seq<T>, k: nat, s: set<T>, draws: seq<nat>) {
    |draws| == DrawsNeeded(|rows|, k) && Members(Keep(rows, k, draws)) == s
  }

  /** The test "exactly this set is left". */
  ghost function Leaving<T>(rows: seq<T>, k: nat, s: set<T>): seq<nat> -> bool { draws => Leaves(rows, k, s, draws) }

  ghost function Select(draws: set<seq<nat>>, p: seq<nat> -> bool): set<seq<nat>> {
    set a | a in draws && p(a)
  }

  ghost function Choices(a: seq<nat>, m: nat, p: seq<nat> -> bool): set<nat> {
    set d: nat | d < m && p(a + [d])
  }

  lemma {:induction false} AppendIsInjective(a: seq<nat>, ds: set<nat>, image: set<seq<nat>>)
    requires image == set d | d in ds :: a + [d]
    ensures |image| == |ds|
  {
    if ds != {} {
      var d :| d in ds;
      var rest := set e | e in ds - {d} :: a + [e];
      AppendIsInjective(a, ds - {d}, rest);
      assert forall e | e in ds - {d} :: (a + [e])[|a|] == e;
      assert (a + [d])[|a|] == d;
      assert a + [d] !in rest;
      assert image == rest + {a + [d]};
    }
  }

  lemma InExtend(prefixes: set<seq<nat>>, m: nat, e: seq<nat>)
    ensures e in Extend(prefixes, m) <==> e != [] && e[..|e| - 1] in prefixes && e[|e| - 1] < m
  {
    if e in Extend(prefixes, m) {
      var a, d: nat :| a in prefixes && d < m && e == a + [d];
      assert e[..|e| - 1] == a;
    } else if e != [] {
      assert e == e[..|e| - 1] + [e[|e| - 1]];
    }
  }

  /** Multiplication as repeated addition, so that counting stays linear for the verifier. */
  function Times(a: nat, b: nat): nat { if a == 0 then 0 else Times(a - 1, b) + b }

  lemma {:induction false} TimesIsProduct(a: nat, b: nat)
    ensures Times(a, b) == a * b
  {
    if a > 0 {
      TimesIsProduct(a - 1, b);
    }
  }

  lemma TimesCommutes(a: nat, b: nat)
    ensures Times(a, b) == Times(b, a)
  {
    TimesIsProduct(a, b);
    TimesIsProduct(b, a);
  }

  lemma OneMore<T>(ys: set<T>, y: T, c: nat)
    requires y in ys
    ensures Times(|ys|, c) == Times(|ys - {y}|, c) + c
  {
    assert |ys| == |ys - {y}| + 1;
  }

  /** If every prefix has `c` next draws that satisfy `p`, the satisfying extensions number `c` a prefix. */
  lemma {:induction false} CountExtensions(prefixes: set<seq<nat>>, m: nat, p: seq<nat> -> bool, c: nat)
    requires forall a | a in prefixes :: |Choices(a, m, p)| == c
    ensures |Select(Extend(prefixes, m), p)| == Times(|prefixes|, c)
  {
    if prefixes == {} {
      assert Select(Extend(prefixes, m), p) == {};
    } else {
      var a :| a in prefixes;
      var rest := prefixes - {a};
      CountExtensions(rest, m, p, c);
      var here := set d | d in Choices(a, m, p) :: a + [d];
      AppendIsInjective(a, Choices(a, m, p), here);
      SplitOff(prefixes, m, p, a, here);
      OneMore(prefixes, a, c);
    }
  }

  lemma SplitOff(prefixes: set<seq<nat>>, m: nat, p: seq<nat> -> bool, a: seq<nat>, here: set<seq<nat>>)
    requires a in prefixes && here == set d | d in Choices(a, m, p) :: a + [d]
    ensures |Select(Extend(prefixes, m), p)| == |here| + |Select(Extend(prefixes - {a}, m), p)|
  {
    var all, there := Select(Extend(prefixes, m), p), Select(Extend(prefixes - {a}, m), p);
    forall e ensures e in here <==> e != [] && e[..|e| - 1] == a && e[|e| - 1] < m && p(e) {
      if e in here {
        var d :| d in Choices(a, m, p) && e == a + [d];
        assert e[..|e| - 1] == a;
      } else if e != [] {
        assert e == e[..|e| - 1] + [e[|e| - 1]];
      }
    }
    forall e ensures e in all <==> e in here || e in there {
      InExtend(prefixes, m, e);
      InExtend(prefixes - {a}, m, e);
    }
    forall e | e in there ensures e !in here {
      InExtend(prefixes - {a}, m, e);
    }
    assert all == here + there;
  }

  /** Each of these sequences has `c` next draws below `m` that satisfy `p`. */
  ghost predicate EachHas(kept: set<seq<nat>>, m: nat, p: seq<nat> -> bool, c: nat) {
    forall a | a in kept :: |Choices(a, m, p)| == c
  }

  /** Extensions of `all` that satisfy `p` extend `kept`. */
  ghost predicate OnlyThese(all: set<seq<nat>>, kept: set<seq<nat>>, p: seq<nat> -> bool) {
    kept <= all && forall a, d: nat | a in all && p(a + [d]) :: a in kept
  }

  /** Only the extensions of `kept` can satisfy `p`. */
  lemma OnlyFrom(all: set<seq<nat>>, kept: set<seq<nat>>, m: nat, p: seq<nat> -> bool)
    requires OnlyThese(all, kept, p)
    ensures Select(Extend(all, m), p) == Select(Extend(kept, m), p)
  {
    forall e ensures e in Select(Extend(all, m), p) <==> e in Select(Extend(kept, m), p) {
      InExtend(all, m, e);
      InExtend(kept, m, e);
      if e != [] {
        assert e == e[..|e| - 1] + [e[|e| - 1]];
      }
    }
  }

  /** The count when only extensions of `kept` can satisfy `p`. */
  lemma CountFrom(all: set<seq<nat>>, kept: set<seq<nat>>, m: nat, p: seq<nat> -> bool, c: nat)
    requires EachHas(kept, m, p, c) && OnlyThese(all, kept, p)
    ensures |Select(Extend(all, m), p)| == Times(|kept|, c)
  {
    OnlyFrom(all, kept, m, p);
    CountExtensions(kept, m, p, c);
  }

  lemma CountDraws(n: nat, k: nat, kept: set<seq<nat>>, p: seq<nat> -> bool, c: nat)
    requires n > k && EachHas(kept, n, p, c) && OnlyThese(AllDraws(n - 1, k), kept, p)
    ensures |Select(AllDraws(n, k), p)| == Times(|kept|, c)
  {
    CountFrom(AllDraws(n - 1, k), kept, n, p, c);
  }

  lemma SizeOfAllDraws(n: nat, k: nat)
    requires n > k
    ensures |AllDraws(n, k)| == Times(|AllDraws(n - 1, k)|, n)
  {
    var any := (a: seq<nat>) => true;
    forall a | a in AllDraws(n - 1, k) ensures |Choices(a, n, any)| == n {
      assert Choices(a, n, any) == Below(n);
    }
    CountExtensions(AllDraws(n - 1, k), n, any, n);
    assert Select(AllDraws(n, k), any) == AllDraws(n, k);
  }

  // ---------- Every row is equally likely ----------

  /** One more row: how the last draw changes what the reservoir holds. */
  lemma LastDraw<T>(rows: seq<T>, k: nat, a: seq<nat>, d: nat)
    requires |rows| > k && Distinct(rows) && |a| == |rows| - 1 - k
    ensures var n := |rows|;
            var before := Keep(rows[..n - 1], k, a);
            && Distinct(before) && rows[n - 1] !in before
            && Keep(rows, k, a + [d]) == if d < k then before[d := rows[n - 1]] else before
  {
    var n := |rows|;
    assert (a + [d])[..n - 1 - k] == a;
    KeepsDistinctRows(rows[..n - 1], k, a);
    var before := Keep(rows[..n - 1], k, a);
  }

  lemma ChoicesForNewRow<T>(rows: seq<T>, k: nat, a: seq<nat>)
    requires |rows| > k && Distinct(rows) && |a| == |rows| - 1 - k
    ensures |Choices(a, |rows|, Keeping(rows, k, rows[|rows| - 1]))| == k
  {
    var n := |rows|;
    var cs := Choices(a, n, Keeping(rows, k, rows[n - 1]));
    forall d: nat ensures d in cs <==> d < k {
      LastDraw(rows, k, a, d);
      var before := Keep(rows[..n - 1], k, a);
      if d < k {
        assert before[d := rows[n - 1]][d] == rows[n - 1];
      }
    }
    assert cs == Below(k);
  }

  lemma InUpdated<T>(before: seq<T>, d: nat, y: T, x: T, at: nat)
    requires Distinct(before) && d < |before| && at < |before| && before[at] == x && y != x
    ensures x in before[d := y] <==> d != at
  {
    var after := before[d := y];
    assert d != at ==> after[at] == x;
    assert forall i | 0 <= i < |after| && i != d :: after[i] == before[i];
  }

  lemma OldRowStaysUnlessHit<T>(rows: seq<T>, k: nat, x: T, a: seq<nat>, at: nat, d: nat)
    requires |rows| > k && Distinct(rows) && x in rows[..|rows| - 1] && |a| == |rows| - 1 - k
    requires at < |Keep(rows[..|rows| - 1], k, a)| && Keep(rows[..|rows| - 1], k, a)[at] == x
    ensures Hits(rows, k, x, a + [d]) <==> d != at
  {
    var before := Keep(rows[..|rows| - 1], k, a);
    LastDraw(rows, k, a, d);
    LastIsNew(rows, x);
    if d < k {
      InUpdated(before, d, rows[|rows| - 1], x, at);
    } else {
      assert before[at] in before;
    }
  }

  lemma LastIsNew<T>(rows: seq<T>, x: T)
    requires rows != [] && Distinct(rows) && x in rows[..|rows| - 1]
    ensures rows[|rows| - 1] != x
  {
    var i :| 0 <= i < |rows| - 1 && rows[i] == x;
  }

  lemma AllBut(a: seq<nat>, m: nat, p: seq<nat> -> bool, at: nat)
    requires at < m && forall d: nat | d < m :: p(a + [d]) <==> d != at
    ensures |Choices(a, m, p)| == m - 1
  {
    assert Choices(a, m, p) == Below(m) - {at};
  }

  lemma ChoicesForOldRow<T>(rows: seq<T>, k: nat, x: T, a: seq<nat>)
    requires |rows| > k && Distinct(rows) && x in rows[..|rows| - 1] && |a| == |rows| - 1 - k
    requires x in Keep(rows[..|rows| - 1], k, a)
    ensures |Choices(a, |rows|, Keeping(rows, k, x))| == |rows| - 1
  {
    var n := |rows|;
    var before := Keep(rows[..n - 1], k, a);
    var at :| 0 <= at < |before| && before[at] == x;
    forall d: nat | d < n ensures Keeping(rows, k, x)(a + [d]) <==> d != at {
      OldRowStaysUnlessHit(rows, k, x, a, at, d);
    }
    AllBut(a, n, Keeping(rows, k, x), at);
  }

  lemma CountNewRow<T>(rows: seq<T>, k: nat)
    requires Distinct(rows) && |rows| > k
    ensures |Select(AllDraws(|rows|, k), Keeping(rows, k, rows[|rows| - 1]))| == Times(|AllDraws(|rows| - 1, k)|, k)
  {
    var n, all := |rows|, AllDraws(|rows| - 1, k);
    forall a | a in all ensures |Choices(a, n, Keeping(rows, k, rows[n - 1]))| == k {
      AllDrawsAreAllDraws(n - 1, k, a);
      ChoicesForNewRow(rows, k, a);
    }
    CountExtensions(all, n, Keeping(rows, k, rows[n - 1]), k);
  }

  /** Sequences that keep an old row, extended, keep it unless they hit its place. */
  lemma ExtendingKept<T>(rows: seq<T>, k: nat, x: T, kept: set<seq<nat>>)
    requires Distinct(rows) && |rows| > k && x in rows[..|rows| - 1]
    requires kept == Select(AllDraws(|rows| - 1, k), Keeping(rows[..|rows| - 1], k, x))
    ensures EachHas(kept, |rows|, Keeping(rows, k, x), |rows| - 1)
    ensures OnlyThese(AllDraws(|rows| - 1, k), kept, Keeping(rows, k, x))
  {
    var n, all := |rows|, AllDraws(|rows| - 1, k);
    forall a | a in kept ensures |Choices(a, n, Keeping(rows, k, x))| == n - 1 {
      ChoicesForOldRow(rows, k, x, a);
    }
    forall a, d: nat | a in all && Keeping(rows, k, x)(a + [d]) ensures a in kept {
      OldRowWasKept(rows, k, x, a, d);
    }
  }

  lemma {:induction false} CountOldRow<T>(rows: seq<T>, k: nat, x: T, kept: set<seq<nat>>)
    requires Distinct(rows) && |rows| > k && x in rows[..|rows| - 1]
    requires kept == Select(AllDraws(|rows| - 1, k), Keeping(rows[..|rows| - 1], k, x))
    ensures |Select(AllDraws(|rows|, k), Keeping(rows, k, x))| == Times(|kept|, |rows| - 1)
  {
    var n, p := |rows|, Keeping(rows, k, x);
    ExtendingKept(rows, k, x, kept);
    CountDraws(n, k, kept, p, n - 1);
  }

  /** A row kept in the end and not the last was kept before. */
  lemma OldRowWasKept<T>(rows: seq<T>, k: nat, x: T, a: seq<nat>, d: nat)
    requires Distinct(rows) && |rows| > k && x in rows[..|rows| - 1]
    requires a in AllDraws(|rows| - 1, k) && Hits(rows, k, x, a + [d])
    ensures Hits(rows[..|rows| - 1], k, x, a)
  {
    AllDrawsAreAllDraws(|rows| - 1, k, a);
    LastDraw(rows, k, a, d);
  }

  lemma {:induction false} TimesZero(a: nat)
    ensures Times(a, 0) == 0
  {
    if a > 0 {
      TimesZero(a - 1);
    }
  }

  lemma {:induction false} TimesDistributes(a: nat, b: nat, c: nat)
    ensures Times(a, b + c) == Times(a, b) + Times(a, c)
  {
    if a > 0 {
      TimesDistributes(a - 1, b, c);
    }
  }

  lemma {:induction false} TimesSwap(n: nat, b: nat, k: nat)
    ensures Times(n, Times(b, k)) == Times(k, Times(b, n))
  {
    if b == 0 {
      TimesZero(n);
      TimesZero(k);
    } else {
      TimesSwap(n, b - 1, k);
      TimesDistributes(n, Times(b - 1, k), k);
      TimesDistributes(k, Times(b - 1, n), n);
      TimesCommutes(n, k);
    }
  }

  lemma BalanceOldRow(hits: nat, hitsBefore: nat, before: nat, all: nat, n: nat, k: nat)
    requires n > 0 && hits == Times(hitsBefore, n - 1) && all == Times(before, n)
    requires Times(n - 1, hitsBefore) == Times(k, before)
    ensures Times(n, hits) == Times(k, all)
  {
    TimesCommutes(hitsBefore, n - 1);
    TimesCommutes(k, before);
    TimesSwap(n, before, k);
  }

  lemma {:induction false} RowCounts<T>(rows: seq<T>, k: nat, x: T)
    requires Distinct(rows) && x in rows && |rows| >= k
    ensures Times(|rows|, |Select(AllDraws(|rows|, k), Keeping(rows, k, x))|) == Times(k, |AllDraws(|rows|, k)|)
  {
    var n := |rows|;
    if n == k {
      assert Hits(rows, k, x, []);
      assert Select(AllDraws(n, k), Keeping(rows, k, x)) == {[]};
    } else if x == rows[n - 1] {
      SizeOfAllDraws(n, k);
      CountNewRow(rows, k);
      TimesSwap(n, |AllDraws(n - 1, k)|, k);
    } else {
      var shorter := rows[..n - 1];
      assert x in shorter && |shorter| == n - 1;
      RowCounts(shorter, k, x);
      RowCountsStep(rows, k, x);
    }
  }

  lemma RowCountsStep<T>(rows: seq<T>, k: nat, x: T)
    requires Distinct(rows) && |rows| > k && x in rows[..|rows| - 1]
    requires Times(|rows| - 1, |Select(AllDraws(|rows| - 1, k), Keeping(rows[..|rows| - 1], k, x))|)
          == Times(k, |AllDraws(|rows| - 1, k)|)
    ensures Times(|rows|, |Select(AllDraws(|rows|, k), Keeping(rows, k, x))|) == Times(k, |AllDraws(|rows|, k)|)
  {
    var n := |rows|;
    SizeOfAllDraws(n, k);
    CountOldRow(rows, k, x, Select(AllDraws(n - 1, k), Keeping(rows[..n - 1], k, x)));
    BalanceOldRow(|Select(AllDraws(n, k), Keeping(rows, k, x))|,
                  |Select(AllDraws(n - 1, k), Keeping(rows[..n - 1], k, x))|,
                  |AllDraws(n - 1, k)|, |AllDraws(n, k)|, n, k);
  }

  /** Uniformity: over all equally likely draw sequences each row is kept in exactly the fraction k / rows. */
  lemma RowsAreEquallyLikely<T>(rows: seq<T>, k: nat, x: T)
    requires Distinct(rows) && x in rows && |rows| >= k
    ensures |rows| * |Select(AllDraws(|rows|, k), Keeping(rows, k, x))| == k * |AllDraws(|rows|, k)|
  {
    RowCounts(rows, k, x);
    TimesIsProduct(|rows|, |Select(AllDraws(|rows|, k), Keeping(rows, k, x))|);
    TimesIsProduct(k, |AllDraws(|rows|, k)|);
  }

  /** A counted sequence is the draws of some run. */
  lemma CountedDrawsAreRun(draws: seq<nat>, n: nat, k: nat) returns (randrange: nat -> nat)
    requires draws in AllDraws(n, k)
    ensures (forall m | m > 0 :: randrange(m) < m) && DrawsOf(randrange, n, k) == draws
  {
    AllDrawsAreAllDraws(n, k, draws);
    randrange := (m: nat) => if k < m <= k + |draws| then draws[m - k - 1] else 0;
  }

  lemma OnlyUsableAreKept(rows: seq<Sample>, lines: seq<Line>, k: nat, x: Sample, draws: seq<nat>)
    requires ComeFrom(rows, lines, |lines|)
    ensures Hits(rows, k, x, draws) ==> ComesFrom(x, lines)
  {
    if Hits(rows, k, x, draws) {
      KeepsDistinctRows(rows, k, draws);
      var i :| 0 <= i < |Keep(rows, k, draws)| && Keep(rows, k, draws)[i] == x;
      assert Keep(rows, k, draws)[i] in rows;
    }
  }

  /** So every usable line of a file with enough of them is sampled by exactly the fraction k / usable lines of all
      draw sequences, and no other line ever. */
  lemma LinesAreEquallyLikely(lines: seq<Line>, k: nat, n: nat)
    requires n < |lines| && k <= |Usable(lines)|
    ensures var rows, u := Eligible(lines), |Usable(lines)|;
            var kept := |Select(AllDraws(u, k), Keeping(rows, k, Sample(lines[n].text, n + 1)))|;
            if lines[n].eligible then u * kept == k * |AllDraws(u, k)| else kept == 0
  {
    EligibleListsUsableLines(lines);
    EligibleRowsAreDistinct(lines);
    var rows, x := Eligible(lines), Sample(lines[n].text, n + 1);
    if lines[n].eligible {
      assert n in Usable(lines);
      RowsAreEquallyLikely(rows, k, x);
    } else {
      forall draws ensures Hits(rows, k, x, draws) ==> ComesFrom(x, lines) {
        OnlyUsableAreKept(rows, lines, k, x, draws);
      }
      assert Select(AllDraws(|rows|, k), Keeping(rows, k, x)) == {};
    }
  }

  // ---------- Every k-subset is equally likely ----------

  function Factorial(n: nat): nat { if n == 0 then 1 else Times(Factorial(n - 1), n) }

  /** What the last draw must be for the reservoir to end up as `s`. */
  lemma LeavesAfterLastDraw<T>(rows: seq<T>, k: nat, s: set<T>, a: seq<nat>, d: nat)
    requires |rows| > k && Distinct(rows) && |a| == |rows| - 1 - k
    ensures var n := |rows|;
            var before := Keep(rows[..n - 1], k, a);
            Leaves(rows, k, s, a + [d]) <==>
            if d < k then rows[n - 1] in s && Members(before) == s - {rows[n - 1]} + {before[d]} && before[d] !in s
            else rows[n - 1] !in s && Members(before) == s
  {
    var n := |rows|;
    LastDraw(rows, k, a, d);
    var before, after := Keep(rows[..n - 1], k, a), Keep(rows, k, a + [d]);
    assert forall i | 0 <= i < |before| :: before[i] in Members(before);
    if d < k {
      assert after[d] == rows[n - 1];
      forall x ensures x in Members(after) <==> x == rows[n - 1] || (x in Members(before) && x != before[d]) {
        if x in Members(before) && x != before[d] {
          var i :| 0 <= i < |before| && before[i] == x;
          assert after[i] == x;
        }
      }
      assert before[d] in Members(before);
      if Members(after) == s {
        assert Members(before) == s - {rows[n - 1]} + {before[d]};
      } else if rows[n - 1] in s && before[d] !in s {
        assert Members(before) != s - {rows[n - 1]} + {before[d]} by {
          var x :| (x in Members(after)) != (x in s);
          assert (x in Members(before)) != (x in s - {rows[n - 1]} + {before[d]});
        }
      }
    }
  }

  lemma ChoicesWithoutNewRow<T>(rows: seq<T>, k: nat, s: set<T>, a: seq<nat>)
    requires |rows| > k && Distinct(rows) && |a| == |rows| - 1 - k && rows[|rows| - 1] !in s
    requires Leaves(rows[..|rows| - 1], k, s, a)
    ensures |Choices(a, |rows|, Leaving(rows, k, s))| == |rows| - k
  {
    var n := |rows|;
    var cs := Choices(a, n, Leaving(rows, k, s));
    forall d: nat | d < n ensures d in cs <==> d >= k {
      LeavesAfterLastDraw(rows, k, s, a, d);
    }
    assert cs == Below(n) - Below(k);
    assert Below(n) * Below(k) == Below(k);
  }

  lemma ChoicesForNewMember<T>(rows: seq<T>, k: nat, s: set<T>, y: T, a: seq<nat>)
    requires |rows| > k && Distinct(rows) && |a| == |rows| - 1 - k && rows[|rows| - 1] in s && y !in s
    requires Leaves(rows[..|rows| - 1], k, s - {rows[|rows| - 1]} + {y}, a)
    ensures |Choices(a, |rows|, Leaving(rows, k, s))| == 1
  {
    var n := |rows|;
    var before := Keep(rows[..n - 1], k, a);
    KeepsDistinctRows(rows[..n - 1], k, a);
    assert y in Members(before);
    var at :| 0 <= at < |before| && before[at] == y;
    var cs := Choices(a, n, Leaving(rows, k, s));
    forall d: nat | d < n ensures d in cs <==> d == at {
      LeavesAfterLastDraw(rows, k, s, a, d);
      if d < k && d != at {
        assert before[d] in Members(before) && before[d] != y;
      }
    }
    assert cs == {at};
  }

  lemma ChoicesForOneOf<T>(rows: seq<T>, k: nat, s: set<T>, ys: set<T>, a: seq<nat>)
    requires |rows| > k && Distinct(rows) && |a| == |rows| - 1 - k && rows[|rows| - 1] in s && ys !! s
    requires LeavesOneOf(rows[..|rows| - 1], k, s - {rows[|rows| - 1]}, ys, a)
    ensures |Choices(a, |rows|, Leaving(rows, k, s))| == 1
  {
    var y :| y in ys && Leaves(rows[..|rows| - 1], k, s - {rows[|rows| - 1]} + {y}, a);
    ChoicesForNewMember(rows, k, s, y, a);
  }

  /** Draw sequences that leave `base` plus some one of `ys`. */
  ghost predicate LeavesOneOf<T>(rows: seq<T>, k: nat, base: set<T>, ys: set<T>, draws: seq<nat>) {
    exists y :: y in ys && Leaves(rows, k, base + {y}, draws)
  }

  ghost function LeavingOneOf<T>(rows: seq<T>, k: nat, base: set<T>, ys: set<T>): seq<nat> -> bool {
    draws => LeavesOneOf(rows, k, base, ys, draws)
  }

  /** Each of `ys`, added to `base`, is left by `c` of the sequences. */
  ghost predicate EachLeft<T>(all: set<seq<nat>>, rows: seq<T>, k: nat, base: set<T>, ys: set<T>, c: nat) {
    forall y | y in ys :: |Select(all, Leaving(rows, k, base + {y}))| == c
  }

  lemma {:induction false} CountOneOf<T>(all: set<seq<nat>>, rows: seq<T>, k: nat, base: set<T>, ys: set<T>, c: nat)
    requires ys !! base && EachLeft(all, rows, k, base, ys, c)
    ensures |Select(all, LeavingOneOf(rows, k, base, ys))| == Times(|ys|, c)
  {
    var some := Select(all, LeavingOneOf(rows, k, base, ys));
    if ys == {} {
      assert some == {};
    } else {
      var y :| y in ys;
      CountOneOf(all, rows, k, base, ys - {y}, c);
      OneOfSplits(all, rows, k, base, ys, y);
      OneMore(ys, y, c);
    }
  }

  lemma OneOfSplits<T>(all: set<seq<nat>>, rows: seq<T>, k: nat, base: set<T>, ys: set<T>, y: T)
    requires ys !! base && y in ys
    ensures |Select(all, LeavingOneOf(rows, k, base, ys))|
         == |Select(all, Leaving(rows, k, base + {y}))| + |Select(all, LeavingOneOf(rows, k, base, ys - {y}))|
  {
    var some := Select(all, LeavingOneOf(rows, k, base, ys));
    var mine := Select(all, Leaving(rows, k, base + {y}));
    var others := Select(all, LeavingOneOf(rows, k, base, ys - {y}));
    forall a | a in others ensures a !in mine {
      var z :| z in ys - {y} && Leaves(rows, k, base + {z}, a);
      assert z in base + {z} && z !in base + {y};
    }
    forall a ensures a in some <==> a in mine || a in others {
      if a in some {
        var z :| z in ys && Leaves(rows, k, base + {z}, a);
        assert z == y || z in ys - {y};
      }
    }
    assert some == mine + others;
  }

  lemma MembersOfPrefix<T>(rows: seq<T>)
    requires Distinct(rows) && rows != []
    ensures Members(rows) == Members(rows[..|rows| - 1]) + {rows[|rows| - 1]}
    ensures |Members(rows[..|rows| - 1])| == |rows| - 1
  {
    MembersOfDistinct(rows[..|rows| - 1]);
  }

  lemma LeftBefore<T>(rows: seq<T>, k: nat, s: set<T>, a: seq<nat>, d: nat)
    requires Distinct(rows) && |rows| > k && rows[|rows| - 1] !in s
    requires a in AllDraws(|rows| - 1, k) && Leaves(rows, k, s, a + [d])
    ensures Leaves(rows[..|rows| - 1], k, s, a)
  {
    AllDrawsAreAllDraws(|rows| - 1, k, a);
    LeavesAfterLastDraw(rows, k, s, a, d);
  }

  /** Sequences that leave `s` of the shorter stream, extended, leave it of the longer one in this many ways. */
  lemma ExtendingLeft<T>(rows: seq<T>, k: nat, s: set<T>, kept: set<seq<nat>>)
    requires Distinct(rows) && |rows| > k && rows[|rows| - 1] !in s
    requires kept == Select(AllDraws(|rows| - 1, k), Leaving(rows[..|rows| - 1], k, s))
    ensures EachHas(kept, |rows|, Leaving(rows, k, s), |rows| - k)
    ensures OnlyThese(AllDraws(|rows| - 1, k), kept, Leaving(rows, k, s))
  {
    forall a | a in kept ensures |Choices(a, |rows|, Leaving(rows, k, s))| == |rows| - k {
      ChoicesWithoutNewRow(rows, k, s, a);
    }
    forall a, d: nat | a in AllDraws(|rows| - 1, k) && Leaving(rows, k, s)(a + [d]) ensures a in kept {
      LeftBefore(rows, k, s, a, d);
    }
  }

  lemma CountWithoutNewRow<T>(rows: seq<T>, k: nat, s: set<T>)
    requires Distinct(rows) && |rows| > k && rows[|rows| - 1] !in s
    ensures |Select(AllDraws(|rows|, k), Leaving(rows, k, s))|
         == Times(|Select(AllDraws(|rows| - 1, k), Leaving(rows[..|rows| - 1], k, s))|, |rows| - k)
  {
    var kept := Select(AllDraws(|rows| - 1, k), Leaving(rows[..|rows| - 1], k, s));
    ExtendingLeft(rows, k, s, kept);
    CountDraws(|rows|, k, kept, Leaving(rows, k, s), |rows| - k);
  }

  /** Sequences that leave all of `s` but the last row, and one of `ys` besides, extended, leave `s` in one way. */
  lemma ExtendingOneOf<T>(rows: seq<T>, k: nat, s: set<T>, ys: set<T>, kept: set<seq<nat>>)
    requires Distinct(rows) && |rows| > k && rows[|rows| - 1] in s && ys == Members(rows[..|rows| - 1]) - s
    requires kept == Select(AllDraws(|rows| - 1, k), LeavingOneOf(rows[..|rows| - 1], k, s - {rows[|rows| - 1]}, ys))
    ensures EachHas(kept, |rows|, Leaving(rows, k, s), 1)
    ensures OnlyThese(AllDraws(|rows| - 1, k), kept, Leaving(rows, k, s))
  {
    forall a | a in kept ensures |Choices(a, |rows|, Leaving(rows, k, s))| == 1 {
      AllDrawsAreAllDraws(|rows| - 1, k, a);
      ChoicesForOneOf(rows, k, s, ys, a);
    }
    forall a, d: nat | a in AllDraws(|rows| - 1, k) && Leaving(rows, k, s)(a + [d]) ensures a in kept {
      LeftOneOfBefore(rows, k, s, ys, a, d);
    }
  }

  lemma LeftOneOfBefore<T>(rows: seq<T>, k: nat, s: set<T>, ys: set<T>, a: seq<nat>, d: nat)
    requires Distinct(rows) && |rows| > k && rows[|rows| - 1] in s
    requires ys == Members(rows[..|rows| - 1]) - s
    requires a in AllDraws(|rows| - 1, k) && Leaves(rows, k, s, a + [d])
    ensures LeavesOneOf(rows[..|rows| - 1], k, s - {rows[|rows| - 1]}, ys, a)
  {
    var n := |rows|;
    var shorter := rows[..n - 1];
    AllDrawsAreAllDraws(n - 1, k, a);
    LeavesAfterLastDraw(rows, k, s, a, d);
    KeepsDistinctRows(shorter, k, a);
    var before := Keep(shorter, k, a);
    assert before[d] in shorter;
    assert Leaves(shorter, k, s - {rows[n - 1]} + {before[d]}, a);
  }

  /** Every k-subset of `rows` is left by `c` of the draw sequences. */
  ghost predicate LeftEqually<T(!new)>(rows: seq<T>, k: nat, c: nat) {
    forall t {:trigger Leaving(rows, k, t)} | t <= Members(rows) && |t| == k ::
      |Select(AllDraws(|rows|, k), Leaving(rows, k, t))| == c
  }

  lemma LeftOver<T>(rows: seq<T>, k: nat, s: set<T>, ys: set<T>)
    requires Distinct(rows) && |rows| > k && s <= Members(rows) && |s| == k && rows[|rows| - 1] in s
    requires ys == Members(rows[..|rows| - 1]) - s
    ensures |ys| == |rows| - k
  {
    var shorter, base := rows[..|rows| - 1], s - {rows[|rows| - 1]};
    MembersOfPrefix(rows);
    assert ys == Members(shorter) - base && Members(shorter) * base == base;
  }

  lemma SwapLastFor<T>(rows: seq<T>, k: nat, s: set<T>, y: T)
    requires Distinct(rows) && |rows| > k && s <= Members(rows) && |s| == k && rows[|rows| - 1] in s
    requires y in Members(rows[..|rows| - 1]) - s
    ensures var t := s - {rows[|rows| - 1]} + {y}; t <= Members(rows[..|rows| - 1]) && |t| == k
  {
    MembersOfPrefix(rows);
  }

  lemma SwapsLeftEqually<T(!new)>(rows: seq<T>, k: nat, s: set<T>, ys: set<T>, c: nat, y: T)
    requires Distinct(rows) && |rows| > k && s <= Members(rows) && |s| == k && rows[|rows| - 1] in s
    requires ys == Members(rows[..|rows| - 1]) - s && LeftEqually(rows[..|rows| - 1], k, c) && y in ys
    ensures |Select(AllDraws(|rows| - 1, k), Leaving(rows[..|rows| - 1], k, s - {rows[|rows| - 1]} + {y}))| == c
  {
    SwapLastFor(rows, k, s, y);
    var t := s - {rows[|rows| - 1]} + {y};
    assert |rows[..|rows| - 1]| == |rows| - 1;
    assert |Select(AllDraws(|rows[..|rows| - 1]|, k), Leaving(rows[..|rows| - 1], k, t))| == c;
  }

  lemma SwapsAreLeftEqually<T(!new)>(rows: seq<T>, k: nat, s: set<T>, ys: set<T>, c: nat)
    requires Distinct(rows) && |rows| > k && s <= Members(rows) && |s| == k && rows[|rows| - 1] in s
    requires ys == Members(rows[..|rows| - 1]) - s && LeftEqually(rows[..|rows| - 1], k, c)
    ensures EachLeft(AllDraws(|rows| - 1, k), rows[..|rows| - 1], k, s - {rows[|rows| - 1]}, ys, c)
  {
    forall y | y in ys
      ensures |Select(AllDraws(|rows| - 1, k), Leaving(rows[..|rows| - 1], k, s - {rows[|rows| - 1]} + {y}))| == c
    {
      SwapsLeftEqually(rows, k, s, ys, c, y);
    }
  }

  lemma StepWithNewRow<T(!new)>(rows: seq<T>, k: nat, s: set<T>, ys: set<T>, c: nat)
    requires Distinct(rows) && |rows| > k && s <= Members(rows) && |s| == k && rows[|rows| - 1] in s
    requires ys == Members(rows[..|rows| - 1]) - s && LeftEqually(rows[..|rows| - 1], k, c)
    ensures |Select(AllDraws(|rows|, k), Leaving(rows, k, s))| == Times(|ys|, c)
  {
    SwapsAreLeftEqually(rows, k, s, ys, c);
    CountOneOf(AllDraws(|rows| - 1, k), rows[..|rows| - 1], k, s - {rows[|rows| - 1]}, ys, c);
    var kept := Select(AllDraws(|rows| - 1, k), LeavingOneOf(rows[..|rows| - 1], k, s - {rows[|rows| - 1]}, ys));
    ExtendingOneOf(rows, k, s, ys, kept);
    CountFrom(AllDraws(|rows| - 1, k), kept, |rows|, Leaving(rows, k, s), 1);
    TimesCommutes(|kept|, 1);
  }

  lemma StepWithoutNewRow<T(!new)>(rows: seq<T>, k: nat, s: set<T>, c: nat)
    requires Distinct(rows) && |rows| > k && s <= Members(rows) && |s| == k && rows[|rows| - 1] !in s
    requires LeftEqually(rows[..|rows| - 1], k, c)
    ensures |Select(AllDraws(|rows|, k), Leaving(rows, k, s))| == Times(c, |rows| - k)
  {
    MembersOfPrefix(rows);
    assert |rows[..|rows| - 1]| == |rows| - 1;
    assert |Select(AllDraws(|rows[..|rows| - 1]|, k), Leaving(rows[..|rows| - 1], k, s))| == c;
    CountWithoutNewRow(rows, k, s);
  }

  /** One more row multiplies the ways to leave any one k-subset by the number of rows left out. */
  lemma SubsetStep<T(!new)>(rows: seq<T>, k: nat, s: set<T>, c: nat)
    requires Distinct(rows) && |rows| > k && s <= Members(rows) && |s| == k
    requires LeftEqually(rows[..|rows| - 1], k, c)
    ensures |Select(AllDraws(|rows|, k), Leaving(rows, k, s))| == Times(c, |rows| - k)
  {
    var n := |rows|;
    if rows[n - 1] in s {
      var ys := Members(rows[..n - 1]) - s;
      LeftOver(rows, k, s, ys);
      StepWithNewRow(rows, k, s, ys, c);
      TimesCommutes(|ys|, c);
    } else {
      StepWithoutNewRow(rows, k, s, c);
    }
  }

  /** Uniformity over samples: each set of k rows is what exactly (rows - k)! of the draw sequences leave. */
  lemma {:induction false} SubsetsAreEquallyLikely<T(!new)>(rows: seq<T>, k: nat)
    requires Distinct(rows) && |rows| >= k
    ensures LeftEqually(rows, k, Factorial(|rows| - k))
  {
    var n := |rows|;
    if n > k {
      SubsetsAreEquallyLikely(rows[..n - 1], k);
    }
    forall s | s <= Members(rows) && |s| == k
      ensures |Select(AllDraws(n, k), Leaving(rows, k, s))| == Factorial(n - k)
    {
      if n == k {
        MembersOfDistinct(rows);
        SameSize(s, Members(rows));
        assert Leaves(rows, k, s, []);
        assert Select(AllDraws(n, k), Leaving(rows, k, s)) == {[]};
      } else {
        SubsetStep(rows, k, s, Factorial(n - 1 - k));
        assert Factorial(n - k) == Times(Factorial(n - 1 - k), n - k);
      }
    }
  }
}
