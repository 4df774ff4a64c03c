/** The character n-gram F1 score between a generated answer and a reference. */
module NgramF1 {
  import opened Reals

  /** Lower-casing and the letter-or-number test come from the Unicode tables; any will do here. */
  function Normalized(text: string, lower: char -> char, keep: char -> bool): string {
    if text == "" then ""
    else
      var c := lower(text[|text| - 1]);
      Normalized(text[..|text| - 1], lower, keep) + (if keep(c) then [c] else [])
  }

  /** Every window of `n` runes, in order. */
  function Windows(runes: string, n: nat): seq<string> {
    if |runes| < n then [] else seq(|runes| - n + 1, i requires 0 <= i <= |runes| - n => runes[i..i + n])
  }

  ghost function Grams(runes: string, n: nat): multiset<string> { multiset(Windows(runes, n)) }

  /** The overlap of two bags against their average size. */
  ghost function Dice(a: multiset<string>, b: multiset<string>): real {
    if |a| == 0 || |b| == 0 then 0.0 else 2.0 * |a * b| as real / (|a| + |b|) as real
  }

  /** A count map holds exactly a bag. */
  ghost predicate Holds(m: map<string, nat>, bag: multiset<string>) {
    forall g :: (g in m <==> g in bag) && (g in m ==> m[g] == bag[g])
  }

  method Normalize(text: string, lower: char -> char, keep: char -> bool) returns (out: string)
    ensures out == Normalized(text, lower, keep)
  {
    out := "";
    var i := 0;
    while i < |text|
      invariant 0 <= i <= |text| && out == Normalized(text[..i], lower, keep)
    {
      assert text[..i + 1][..i] == text[..i];
      var c := lower(text[i]);
      if keep(c) {
        out := out + [c];
      }
      i := i + 1;
    }
    assert text[..i] == text;
  }

  lemma HoldsOneMore(m: map<string, nat>, bag: multiset<string>, g: string)
    requires Holds(m, bag)
    ensures Holds(m[g := (if g in m then m[g] else 0) + 1], bag + multiset{g})
  {
  }

  lemma OneMoreWindow(windows: seq<string>, i: nat)
    requires i < |windows|
    ensures multiset(windows[..i + 1]) == multiset(windows[..i]) + multiset{windows[i]}
  {
    assert windows[..i + 1] == windows[..i] + [windows[i]];
  }

  method CountGrams(runes: string, n: nat) returns (out: map<string, nat>)
    ensures Holds(out, Grams(runes, n))
  {
    out := map[];
    if |runes| < n {
      return;
    }
    ghost var windows := Windows(runes, n);
    var i := 0;
    while i <= |runes| - n
      invariant 0 <= i <= |runes| - n + 1
      invariant Holds(out, multiset(windows[..i]))
    {
      var g := runes[i..i + n];
      assert windows[i] == g;
      HoldsOneMore(out, multiset(windows[..i]), g);
      OneMoreWindow(windows, i);
      out := out[g := (if g in out then out[g] else 0) + 1];
      i := i + 1;
    }
    assert windows[..i] == windows;
  }

  /** Sums over a count map in whatever order the keys come: the bag's size and its overlap with another. */
  method Overlap(a: map<string, nat>, b: map<string, nat>, ghost bagA: multiset<string>, ghost bagB: multiset<string>)
    returns (overlap: nat, total: nat)
    requires Holds(a, bagA) && Holds(b, bagB)
    ensures overlap == |bagA * bagB| && total == |bagA|
  {
    overlap, total := 0, 0;
    var pending := a.Keys;
    ghost var done := multiset{};
    while pending != {}
      invariant pending <= a.Keys
      invariant forall g :: done[g] == if g in a && g !in pending then bagA[g] else 0
      invariant total == |done| && overlap == |done * bagB|
      decreases pending
    {
      var g :| g in pending;
      var count, other := a[g], if g in b then b[g] else 0;
      ghost var next := done[g := count];
      assert next * bagB == (done * bagB)[g := if other < count then other else count];
      total := total + count;
      if other < count {
        overlap := overlap + other;
      } else {
        overlap := overlap + count;
      }
      done := next;
      pending := pending - {g};
    }
    assert done == bagA;
  }

  method CharNgramF1(generated: string, reference: string, n: nat, lower: char -> char, keep: char -> bool)
    returns (f1: real)
    ensures f1 == Dice(Grams(Normalized(generated, lower, keep), n), Grams(Normalized(reference, lower, keep), n))
  {
    var g := Normalize(generated, lower, keep);
    var r := Normalize(reference, lower, keep);
    var generatedGrams := CountGrams(g, n);
    var referenceGrams := CountGrams(r, n);
    f1 := Score(generatedGrams, referenceGrams, Grams(g, n), Grams(r, n));
  }

  /** The score of two count maps. */
  method Score(generatedGrams: map<string, nat>, referenceGrams: map<string, nat>,
               ghost a: multiset<string>, ghost b: multiset<string>) returns (f1: real)
    requires Holds(generatedGrams, a) && Holds(referenceGrams, b)
    ensures f1 == Dice(a, b)
  {
    EmptyMapEmptyBag(generatedGrams, a);
    EmptyMapEmptyBag(referenceGrams, b);
    if generatedGrams == map[] || referenceGrams == map[] {
      return 0.0;
    }
    var overlap, generatedTotal := Overlap(generatedGrams, referenceGrams, a, b);
    var unused, referenceTotal := Overlap(referenceGrams, referenceGrams, b, b);
    var precision := overlap as real / generatedTotal as real;
    var recall := overlap as real / referenceTotal as real;
    HarmonicMean(overlap as real, generatedTotal as real, referenceTotal as real);
    if precision + recall == 0.0 {
      assert 2.0 * overlap as real == 0.0;
      return 0.0;
    }
    f1 := 2.0 * precision * recall / (precision + recall);
  }

  lemma EmptyMapEmptyBag(m: map<string, nat>, bag: multiset<string>)
    requires Holds(m, bag)
    ensures m == map[] <==> |bag| == 0
  {
    if |bag| != 0 {
      var g :| g in bag;
      assert g in m;
    } else {
      assert forall g :: g !in bag;
    }
  }

  lemma Cancel(x: real, y: real, d: real)
    requires d != 0.0 && x == y * d
    ensures x / d == y
  {
  }

  /** Precision and recall combined are the overlap over the average size. */
  lemma HarmonicMean(o: real, a: real, b: real)
    requires o >= 0.0 && a > 0.0 && b > 0.0
    ensures var p, r := o / a, o / b;
            (p + r == 0.0 <==> o == 0.0) && (p + r != 0.0 ==> 2.0 * p * r / (p + r) == 2.0 * o / (a + b))
  {
    var p, r, f := o / a, o / b, 2.0 * o / (a + b);
    DivMul(o, a);
    DivMul(o, b);
    DivMul(2.0 * o, a + b);
    FracMonotone(0.0, o, a);
    FracMonotone(0.0, o, b);
    if o != 0.0 {
      Rearranged(p, r, a, b, o, f);
      Cancel(2.0 * p * r, f, p + r);
    }
  }

  lemma Expand(p: real, r: real, a: real, b: real)
    ensures (p + r) * (a * b) == (p * a) * b + (r * b) * a
    ensures (2.0 * p * r) * (a * b) == 2.0 * ((p * a) * (r * b))
  {
  }

  lemma Associate(x: real, y: real, z: real)
    ensures (x * y) * z == x * (y * z) && x * y == y * x && x * (y + z) == x * y + x * z
  {
  }

  lemma Rearranged(p: real, r: real, a: real, b: real, o: real, f: real)
    requires a > 0.0 && b > 0.0 && p * a == o && r * b == o && f * (a + b) == 2.0 * o
    ensures 2.0 * p * r == f * (p + r)
  {
    Expand(p, r, a, b);
    assert (p + r) * (a * b) == o * b + o * a;
    Associate(o, a, b);
    Associate(f, a + b, o);
    Associate(f, p + r, a * b);
    assert (p + r) * (a * b) == (a + b) * o by { Associate(a + b, o, 1.0); }
    assert (f * (p + r)) * (a * b) == 2.0 * o * o;
    ProductSign(a, b);
    SameFactor(2.0 * p * r, f * (p + r), a * b);
  }

  lemma SameFactor(x: real, y: real, d: real)
    requires d > 0.0 && x * d == y * d
    ensures x == y
  {
    TimesDifference(x, y, d);
    ProductSign(y - x, d);
    ProductSign(x - y, d);
  }

  // ---------- What the score means ----------

  lemma EmptyDifference(a: multiset<string>, b: multiset<string>)
    ensures |a - b| == 0 <==> a <= b
  {
    if a <= b {
      assert forall g :: (a - b)[g] == 0;
      assert a - b == multiset{};
    } else {
      var g :| a[g] > b[g];
      assert g in a - b;
    }
  }

  lemma OverlapBounds(a: multiset<string>, b: multiset<string>)
    ensures |a * b| <= |a| && |a * b| <= |b|
    ensures |a * b| == |a| <==> a <= b
    ensures |a * b| == |b| <==> b <= a
  {
    assert |a - b| == |a| - |a * b|;
    assert b * a == a * b;
    assert |b - a| == |b| - |b * a|;
    EmptyDifference(a, b);
    EmptyDifference(b, a);
  }

  /** Symmetric, between 0 and 1, and 1 exactly for equal bags with something in them. */
  lemma DiceProperties(a: multiset<string>, b: multiset<string>)
    ensures Dice(a, b) == Dice(b, a)
    ensures 0.0 <= Dice(a, b) <= 1.0
    ensures Dice(a, b) == 1.0 <==> a == b && |a| > 0
    ensures Dice(a, b) == 0.0 <==> a * b == multiset{}
  {
    assert a * b == b * a;
    OverlapBounds(a, b);
    assert |a * b| == 0 <==> a * b == multiset{};
    if |a| != 0 && |b| != 0 {
      Ratio(2.0 * |a * b| as real, (|a| + |b|) as real);
      assert a <= b && b <= a ==> a == b;
    } else {
      assert |a| == 0 ==> a == multiset{};
      assert |b| == 0 ==> b == multiset{};
    }
  }

  lemma Ratio(x: real, d: real)
    requires 0.0 <= x <= d && d > 0.0
    ensures 0.0 <= x / d <= 1.0 && (x / d == 1.0 <==> x == d) && (x / d == 0.0 <==> x == 0.0)
  {
    FracMonotone(0.0, x, d);
    FracMonotone(x, d, d);
  }

  /** An answer scores 1 exactly when it has the reference's n-grams, each as often, and is long enough to have any. */
  lemma PerfectScore(generated: string, reference: string, n: nat)
    ensures Dice(Grams(generated, n), Grams(reference, n)) == 1.0
       <==> Grams(generated, n) == Grams(reference, n) && |generated| >= n
  {
    DiceProperties(Grams(generated, n), Grams(reference, n));
    assert |Grams(generated, n)| == |Windows(generated, n)|;
  }

  /** Normalizing one rune: it is lower-cased and then kept or dropped. */
  lemma NormalizedOne(c: char, lower: char -> char, keep: char -> bool)
    ensures Normalized([c], lower, keep) == if keep(lower(c)) then [lower(c)] else ""
  {
    assert [c][..0] == "" && Normalized("", lower, keep) == "";
  }

  lemma NormalizedStep(text: string, c: char, lower: char -> char, keep: char -> bool)
    ensures Normalized(text + [c], lower, keep)
         == Normalized(text, lower, keep) + (if keep(lower(c)) then [lower(c)] else "")
  {
    assert (text + [c])[..|text|] == text;
  }

  /** And it goes rune by rune, in order. */
  lemma {:induction false} NormalizedAppend(a: string, b: string, lower: char -> char, keep: char -> bool)
    ensures Normalized(a + b, lower, keep) == Normalized(a, lower, keep) + Normalized(b, lower, keep)
  {
    if b == "" {
      assert a + b == a;
    } else {
      var init, c := b[..|b| - 1], b[|b| - 1];
      NormalizedAppend(a, init, lower, keep);
      assert b == init + [c] && a + b == (a + init) + [c];
      NormalizedStep(init, c, lower, keep);
      NormalizedStep(a + init, c, lower, keep);
    }
  }

  ghost predicate OccursAt(runes: string, g: string, i: nat) { i + |g| <= |runes| && runes[i..i + |g|] == g }

  /** Where a text has an n-gram. */
  ghost function Occurrences(runes: string, g: string): set<nat> {
    set i: nat | i <= |runes| && OccursAt(runes, g, i)
  }

  ghost predicate IsAt(windows: seq<string>, g: string, i: nat) { i < |windows| && windows[i] == g }

  ghost function Places(windows: seq<string>, k: nat, g: string): set<nat> {
    set i: nat | i < k && IsAt(windows, g, i)
  }

  lemma PlacesStep(windows: seq<string>, k: nat, g: string)
    requires 0 < k <= |windows|
    ensures |Places(windows, k, g)| == |Places(windows, k - 1, g)| + (if windows[k - 1] == g then 1 else 0)
  {
    assert k - 1 !in Places(windows, k - 1, g);
    assert Places(windows, k, g) == Places(windows, k - 1, g) + (if windows[k - 1] == g then {k - 1} else {});
  }

  lemma {:induction false} CountInPrefix(windows: seq<string>, k: nat, g: string)
    requires k <= |windows|
    ensures multiset(windows[..k])[g] == |Places(windows, k, g)|
  {
    if k == 0 {
      assert Places(windows, 0, g) == {};
    } else {
      CountInPrefix(windows, k - 1, g);
      OneMoreWindow(windows, k - 1);
      PlacesStep(windows, k, g);
    }
  }

  /** The bag has each n-gram as often as the text has it, overlaps included, and nothing of any other length. */
  lemma GramsCountOccurrences(runes: string, n: nat, g: string)
    ensures Grams(runes, n)[g] == if |g| == n then |Occurrences(runes, g)| else 0
  {
    var windows := Windows(runes, n);
    if |g| == n {
      CountInPrefix(windows, |windows|, g);
      assert windows[..|windows|] == windows;
      assert Places(windows, |windows|, g) == Occurrences(runes, g);
    } else {
      assert g !in windows;
    }
  }

  /** The score is the harmonic mean of precision and recall: shared n-grams over those of the answer, and over those of
      the reference. Without n-grams on one side, or without any shared, it is zero. */
  lemma DiceIsHarmonicMean(a: multiset<string>, b: multiset<string>)
    ensures |a| == 0 || |b| == 0 || |a * b| == 0 ==> Dice(a, b) == 0.0
    ensures |a| > 0 && |b| > 0 && |a * b| > 0 ==>
              var p, r := |a * b| as real / |a| as real, |a * b| as real / |b| as real;
              p + r > 0.0 && Dice(a, b) == 2.0 * p * r / (p + r)
  {
    if |a| > 0 && |b| > 0 {
      var o, x, y := |a * b| as real, |a| as real, |b| as real;
      HarmonicMean(o, x, y);
      FracMonotone(0.0, o, x);
      FracMonotone(0.0, o, y);
    }
  }
}
