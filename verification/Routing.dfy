/** Weighted routing policies: the random pick, the validation, and the policy table under concurrent handlers. */
module Routing {
  import opened Common

  const TWO63: int := 0x8000_0000_0000_0000
  const TWO64: int := 0x1_0000_0000_0000_0000

  /** The machine's int. */
  type Int64 = x: int | (-TWO63 <= x && x < TWO63)

  /** Addition as the machine does it. */
  function Wrap(x: int): Int64 { (x + TWO63) % TWO64 - TWO63 }

  datatype Variant = Variant(tag: string, endpoint: string, model: string, weight: Int64)

  function Positive(w: int): nat { if w > 0 then w else 0 }

  /** Sum of the positive weights, as a number. */
  ghost function PositiveSum(vs: seq<Variant>): nat {
    if vs == [] then 0 else PositiveSum(vs[..|vs| - 1]) + Positive(vs[|vs| - 1].weight)
  }

  // ---------- The pick ----------

  /** The position a draw selects: skip what is not positive, walk down the rest. */
  ghost function Chosen(vs: seq<Variant>, n: nat): (position: int)
    ensures -1 <= position < |vs|
  {
    if vs == [] then -1
    else if vs[0].weight > 0 && n < vs[0].weight then 0
    else
      var later := Chosen(vs[1..], n - Positive(vs[0].weight));
      if later == -1 then -1 else later + 1
  }

  /** The position selected by what is left of a draw, looking from position `i` on. */
  ghost function From(vs: seq<Variant>, i: nat, n: nat): int
    requires i <= |vs|
  {
    var rest := Chosen(vs[i..], n);
    if rest == -1 then -1 else rest + i
  }

  lemma ChosenStep(vs: seq<Variant>, i: nat, n: nat)
    requires i < |vs|
    ensures From(vs, i, n) ==
            if vs[i].weight > 0 && n < vs[i].weight then i else From(vs, i + 1, n - Positive(vs[i].weight))
  {
    assert vs[i..][0] == vs[i] && vs[i..][1..] == vs[i + 1..];
  }

  /** The first loop: the total as the machine adds it. */
  method TotalWeight(variants: seq<Variant>) returns (total: Int64)
    ensures total == Wrap(PositiveSum(variants))
  {
    total := 0;
    var i := 0;
    while i < |variants|
      invariant 0 <= i <= |variants| && total == Wrap(PositiveSum(variants[..i]))
    {
      assert variants[..i + 1][..i] == variants[..i];
      if variants[i].weight > 0 {
        WrapAdds(PositiveSum(variants[..i]), variants[i].weight);
        total := Wrap(total + variants[i].weight);
      }
      i := i + 1;
    }
    assert variants[..i] == variants;
  }

  method PickVariant(variants: seq<Variant>, intn: nat -> nat) returns (position: int)
    requires forall m | m > 0 :: intn(m) < m
    ensures var total := Wrap(PositiveSum(variants));
            position == if total > 0 then Chosen(variants, intn(total)) else -1
  {
    var total := TotalWeight(variants);
    if total <= 0 {
      return -1;
    }
    var n: nat := intn(total);
    ghost var chosen := Chosen(variants, n);
    var i := 0;
    assert variants[0..] == variants;
    while i < |variants|
      invariant 0 <= i <= |variants|
      invariant From(variants, i, n) == chosen
    {
      ChosenStep(variants, i, n);
      if variants[i].weight <= 0 {
        i := i + 1;
        continue;
      }
      if n < variants[i].weight {
        return i;
      }
      n := n - variants[i].weight;
      i := i + 1;
    }
    assert variants[i..] == [];
    position := -1;
  }

  lemma WrapAdds(a: int, b: int)
    ensures Wrap(Wrap(a) + b) == Wrap(a + b)
  {
  }

  /** What wrapping is: the one machine int that differs by a multiple of two to the 64th. */
  lemma WrapIsModular(x: int, y: Int64)
    ensures y == Wrap(x) <==> (x - y) % TWO64 == 0
  {
    var k := (x + TWO63) / TWO64;
    assert x - Wrap(x) == k * TWO64;
    if (x - y) % TWO64 == 0 {
      var j := (x - y) / TWO64;
      assert (j - k) * TWO64 == Wrap(x) - y;
    }
  }

  lemma WrapOfNatural(s: nat)
    ensures Wrap(s) <= s
    ensures s < TWO63 <==> Wrap(s) == s
  {
  }

  lemma {:induction false} PositiveSumSplit(vs: seq<Variant>)
    requires vs != []
    ensures PositiveSum(vs) == Positive(vs[0].weight) + PositiveSum(vs[1..])
  {
    var n := |vs| - 1;
    if n > 0 {
      PositiveSumSplit(vs[..n]);
      assert vs[..n][1..] == vs[1..][..n - 1] && vs[1..][n - 1] == vs[n];
    } else {
      assert vs[..0] == [] && vs[1..] == [];
    }
  }

  /** A draw selects a position exactly when it falls in that position's stretch of the total. */
  lemma {:induction false} ChosenByStretch(vs: seq<Variant>, n: nat, i: nat)
    requires i < |vs|
    ensures Chosen(vs, n) == i
       <==> PositiveSum(vs[..i]) <= n < PositiveSum(vs[..i]) + Positive(vs[i].weight)
  {
    var p := Positive(vs[0].weight);
    if i == 0 {
      assert vs[..0] == [];
    } else {
      PositiveSumSplit(vs[..i]);
      assert vs[..i][1..] == vs[1..][..i - 1] && vs[..i][0] == vs[0];
      if n >= p {
        ChosenByStretch(vs[1..], n - p, i - 1);
      }
    }
  }

  lemma {:induction false} ChosenMisses(vs: seq<Variant>, n: nat)
    ensures Chosen(vs, n) == -1 <==> n >= PositiveSum(vs)
  {
    if vs != [] {
      PositiveSumSplit(vs);
      if n >= Positive(vs[0].weight) {
        ChosenMisses(vs[1..], n - Positive(vs[0].weight));
      }
    }
  }

  /** A draw below the total always finds a variant: the last return is never reached. */
  lemma DrawAlwaysChooses(vs: seq<Variant>, n: nat)
    requires n < Wrap(PositiveSum(vs))
    ensures 0 <= Chosen(vs, n) < |vs| && vs[Chosen(vs, n)].weight > 0
  {
    WrapOfNatural(PositiveSum(vs));
    ChosenMisses(vs, n);
    ChosenByStretch(vs, n, Chosen(vs, n));
  }

  /** The draws below `total` that select position `i`. */
  ghost function DrawsFor(vs: seq<Variant>, total: nat, i: nat): set<nat> {
    set n: nat | n < total && Chosen(vs, n) == i
  }

  ghost function Stretch(lo: nat, hi: nat): (s: set<nat>)
    ensures forall n: nat :: n in s <==> lo <= n < hi
    ensures |s| == if lo < hi then hi - lo else 0
    decreases hi
  {
    if hi <= lo then {} else Stretch(lo, hi - 1) + {hi - 1}
  }

  function Least(a: int, b: int): int { if a <= b then a else b }

  /** Position `i` is selected by the draws of its stretch, from the weight before it to that with its own. */
  lemma CountDraws(vs: seq<Variant>, total: nat, i: nat, lo: nat, hi: nat)
    requires i < |vs| && lo == PositiveSum(vs[..i]) && hi == lo + Positive(vs[i].weight)
    ensures |DrawsFor(vs, total, i)| == Positive(Least(hi, total) - lo)
  {
    var stretch := Stretch(lo, Least(hi, total));
    forall n: nat ensures n in DrawsFor(vs, total, i) <==> n in stretch {
      ChosenByStretch(vs, n, i);
    }
    assert DrawsFor(vs, total, i) == stretch;
  }

  lemma {:induction false} PrefixSums(vs: seq<Variant>, i: nat)
    requires i < |vs|
    ensures PositiveSum(vs[..i]) + Positive(vs[i].weight) <= PositiveSum(vs)
    decreases |vs|
  {
    var n := |vs| - 1;
    if i < n {
      PrefixSums(vs[..n], i);
      assert vs[..n][..i] == vs[..i];
    }
  }

  /** Each position has exactly its weight's share of the draws. */
  ghost predicate ExactShares(vs: seq<Variant>) {
    forall i | 0 <= i < |vs| ::
      |DrawsFor(vs, Positive(Wrap(PositiveSum(vs))), i)| == if vs[i].weight > 0 then vs[i].weight else 0
  }

  lemma ShareIsExact(vs: seq<Variant>, i: nat)
    requires i < |vs|
    ensures |DrawsFor(vs, PositiveSum(vs), i)| == Positive(vs[i].weight)
  {
    var lo := PositiveSum(vs[..i]);
    CountDraws(vs, PositiveSum(vs), i, lo, lo + Positive(vs[i].weight));
    PrefixSums(vs, i);
  }

  lemma SharesAreExact(vs: seq<Variant>)
    requires PositiveSum(vs) < TWO63
    ensures ExactShares(vs)
  {
    WrapOfNatural(PositiveSum(vs));
    forall i | 0 <= i < |vs| ensures |DrawsFor(vs, PositiveSum(vs), i)| == Positive(vs[i].weight) {
      ShareIsExact(vs, i);
    }
  }

  lemma {:induction false} LastPositive(vs: seq<Variant>) returns (i: nat)
    requires PositiveSum(vs) > 0
    ensures i < |vs| && vs[i].weight > 0 && PositiveSum(vs[..i]) + Positive(vs[i].weight) == PositiveSum(vs)
    decreases |vs|
  {
    var n := |vs| - 1;
    if vs[n].weight > 0 {
      i := n;
    } else {
      i := LastPositive(vs[..n]);
      assert vs[..n][..i] == vs[..i];
    }
  }

  /** With a usable total the shares are exact precisely when the weights do not overflow the machine's int;
      when they do, the last positive position is short. */
  lemma SharesAreExactIff(vs: seq<Variant>)
    requires Wrap(PositiveSum(vs)) > 0
    ensures ExactShares(vs) <==> PositiveSum(vs) < TWO63
  {
    WrapOfNatural(PositiveSum(vs));
    if PositiveSum(vs) < TWO63 {
      SharesAreExact(vs);
    } else {
      var i := LastPositive(vs);
      var lo := PositiveSum(vs[..i]);
      CountDraws(vs, Wrap(PositiveSum(vs)), i, lo, lo + Positive(vs[i].weight));
      assert |DrawsFor(vs, Positive(Wrap(PositiveSum(vs))), i)| < Positive(vs[i].weight);
    }
  }

  // ---------- Validation ----------

  /** Characters that strings.TrimSpace removes. */
  predicate IsSpace(c: char) {
    || c == ' ' || '\t' <= c <= '\r' || c == '\U{0085}' || c == '\U{00A0}' || c == '\U{1680}'
    || '\U{2000}' <= c <= '\U{200A}' || c == '\U{2028}' || c == '\U{2029}' || c == '\U{202F}'
    || c == '\U{205F}' || c == '\U{3000}'
  }

  predicate Blank(s: string) { forall i | 0 <= i < |s| :: IsSpace(s[i]) }

  datatype Verdict = Ok | NoVariants | BlankLabel | DuplicateLabel(tag: string) | BlankEndpoint(tag: string)
                   | NegativeWeight(tag: string) | NoWeight

  ghost predicate HasLabel(vs: seq<Variant>, tag: string) { exists i :: 0 <= i < |vs| && vs[i].tag == tag }

  /** The first complaint about `v` after the variants `before`. */
  ghost function Complaint(before: seq<Variant>, v: Variant): Verdict {
    if Blank(v.tag) then BlankLabel
    else if HasLabel(before, v.tag) then DuplicateLabel(v.tag)
    else if Blank(v.endpoint) then BlankEndpoint(v.tag)
    else if v.weight < 0 then NegativeWeight(v.tag)
    else Ok
  }

  /** The first complaint in list order. */
  ghost function FirstComplaint(vs: seq<Variant>): Verdict {
    if vs == [] then Ok
    else
      var earlier := FirstComplaint(vs[..|vs| - 1]);
      if earlier != Ok then earlier else Complaint(vs[..|vs| - 1], vs[|vs| - 1])
  }

  ghost function Judged(vs: seq<Variant>): Verdict {
    if vs == [] then NoVariants
    else if FirstComplaint(vs) != Ok then FirstComplaint(vs)
    else if Wrap(PositiveSum(vs)) <= 0 then NoWeight
    else Ok
  }

  /** What a stored list must be, said without the order of checks. */
  ghost predicate Valid(vs: seq<Variant>) {
    && vs != []
    && (forall i | 0 <= i < |vs| :: !Blank(vs[i].tag) && !Blank(vs[i].endpoint) && vs[i].weight >= 0)
    && (forall i, j | 0 <= i < j < |vs| :: vs[i].tag != vs[j].tag)
    && Wrap(PositiveSum(vs)) > 0
  }

  method ValidateVariants(vs: seq<Variant>) returns (r: Verdict)
    ensures r == Judged(vs)
  {
    if |vs| == 0 {
      return NoVariants;
    }
    var seen: set<string> := {};
    var total: Int64 := 0;
    var i := 0;
    while i < |vs|
      invariant 0 <= i <= |vs|
      invariant FirstComplaint(vs[..i]) == Ok
      invariant forall l :: l in seen <==> HasLabel(vs[..i], l)
      invariant total == Wrap(PositiveSum(vs[..i]))
    {
      var v := vs[i];
      assert vs[..i + 1][..i] == vs[..i] && vs[..i + 1][i] == v;
      ComplaintStays(vs, i + 1);
      if Blank(v.tag) {
        return BlankLabel;
      }
      if v.tag in seen {
        return DuplicateLabel(v.tag);
      }
      if Blank(v.endpoint) {
        return BlankEndpoint(v.tag);
      }
      if v.weight < 0 {
        return NegativeWeight(v.tag);
      }
      LabelsAppend(vs[..i], v);
      assert vs[..i + 1] == vs[..i] + [v];
      seen := seen + {v.tag};
      WrapAdds(PositiveSum(vs[..i]), v.weight);
      total := Wrap(total + v.weight);
      i := i + 1;
    }
    assert vs[..i] == vs;
    if total <= 0 {
      return NoWeight;
    }
    r := Ok;
  }

  lemma LabelsAppend(vs: seq<Variant>, v: Variant)
    ensures forall l :: HasLabel(vs + [v], l) <==> HasLabel(vs, l) || l == v.tag
  {
    var more := vs + [v];
    forall l ensures HasLabel(more, l) <==> HasLabel(vs, l) || l == v.tag {
      assert more[|vs|] == v && forall j | 0 <= j < |vs| :: more[j] == vs[j];
    }
  }

  /** A complaint about a prefix is the complaint about the whole. */
  lemma {:induction false} ComplaintStays(vs: seq<Variant>, n: nat)
    requires n <= |vs|
    ensures FirstComplaint(vs[..n]) != Ok ==> FirstComplaint(vs) == FirstComplaint(vs[..n])
    decreases |vs|
  {
    if n == |vs| {
      assert vs[..n] == vs;
    } else {
      ComplaintStays(vs[..|vs| - 1], n);
      assert vs[..|vs| - 1][..n] == vs[..n];
    }
  }

  lemma {:induction false} NoComplaintMeans(vs: seq<Variant>)
    ensures FirstComplaint(vs) == Ok <==>
            (forall i | 0 <= i < |vs| :: !Blank(vs[i].tag) && !Blank(vs[i].endpoint) && vs[i].weight >= 0)
            && (forall i, j | 0 <= i < j < |vs| :: vs[i].tag != vs[j].tag)
  {
    if vs != [] {
      var n := |vs| - 1;
      var init, v := vs[..n], vs[n];
      NoComplaintMeans(init);
      assert forall i | 0 <= i < n :: init[i] == vs[i];
      if HasLabel(init, v.tag) {
        var i :| 0 <= i < |init| && init[i].tag == v.tag;
        assert vs[i].tag == vs[n].tag;
      } else {
        assert forall i | 0 <= i < n :: init[i].tag != v.tag;
      }
    }
  }

  /** The checks accept exactly the valid lists. */
  lemma AcceptedIffValid(vs: seq<Variant>)
    ensures Judged(vs) == Ok <==> Valid(vs)
  {
    NoComplaintMeans(vs);
  }

  /** Something is wrong with the variant at `i`, seen after those before it. */
  ghost predicate Faulty(vs: seq<Variant>, i: nat)
    requires i < |vs|
  {
    || Blank(vs[i].tag) || Blank(vs[i].endpoint) || vs[i].weight < 0
    || exists j :: 0 <= j < i && vs[j].tag == vs[i].tag
  }

  /** The verdict on a faulty list is about its first faulty variant, on any other about the total. */
  lemma VerdictIsOnFirstFault(vs: seq<Variant>, i: nat)
    requires i < |vs| && Faulty(vs, i) && forall j | 0 <= j < i :: !Faulty(vs, j)
    ensures Judged(vs) ==
            if Blank(vs[i].tag) then BlankLabel
            else if exists j :: 0 <= j < i && vs[j].tag == vs[i].tag then DuplicateLabel(vs[i].tag)
            else if Blank(vs[i].endpoint) then BlankEndpoint(vs[i].tag)
            else NegativeWeight(vs[i].tag)
  {
    NoComplaintBefore(vs, i);
    SameLabelBefore(vs, i);
    assert vs[..i + 1][..i] == vs[..i] && vs[..i + 1][i] == vs[i];
    ComplaintStays(vs, i + 1);
  }

  /** Without a fault there must be a variant, and then weight. */
  lemma VerdictWithoutFault(vs: seq<Variant>)
    requires forall i | 0 <= i < |vs| :: !Faulty(vs, i)
    ensures Judged(vs) == if |vs| == 0 then NoVariants else if Wrap(PositiveSum(vs)) <= 0 then NoWeight else Ok
  {
    NoComplaintBefore(vs, |vs|);
    assert vs[..|vs|] == vs;
  }

  lemma SameLabelBefore(vs: seq<Variant>, i: nat)
    requires i < |vs|
    ensures HasLabel(vs[..i], vs[i].tag) <==> exists j :: 0 <= j < i && vs[j].tag == vs[i].tag
  {
    assert forall j | 0 <= j < i :: vs[..i][j] == vs[j];
    if j :| 0 <= j < i && vs[j].tag == vs[i].tag {
      assert vs[..i][j].tag == vs[i].tag;
    }
  }

  lemma {:induction false} NoComplaintBefore(vs: seq<Variant>, i: nat)
    requires i <= |vs| && forall j | 0 <= j < i :: !Faulty(vs, j)
    ensures FirstComplaint(vs[..i]) == Ok
  {
    if i > 0 {
      NoComplaintBefore(vs, i - 1);
      SameLabelBefore(vs, i - 1);
      assert vs[..i][..i - 1] == vs[..i - 1] && vs[..i][i - 1] == vs[i - 1];
      assert !Faulty(vs, i - 1);
    }
  }

  // ---------- Promotion ----------

  /** All weight to one label. */
  ghost function Promoted(vs: seq<Variant>, tag: string): seq<Variant> {
    seq(|vs|, i requires 0 <= i < |vs| => vs[i].(weight := if vs[i].tag == tag then 100 else 0))
  }

  method PromoteWeights(vs: seq<Variant>, tag: string) returns (next: seq<Variant>, found: bool)
    ensures next == Promoted(vs, tag) && found == HasLabel(vs, tag)
  {
    next, found := [], false;
    var i := 0;
    while i < |vs|
      invariant 0 <= i <= |vs|
      invariant next == Promoted(vs, tag)[..i] && found == HasLabel(vs[..i], tag)
    {
      var v := vs[i];
      LabelsAppend(vs[..i], v);
      assert vs[..i + 1] == vs[..i] + [v];
      if v.tag == tag {
        v := v.(weight := 100);
        found := true;
      } else {
        v := v.(weight := 0);
      }
      next := next + [v];
      i := i + 1;
    }
    assert vs[..i] == vs;
  }

  lemma {:induction false} SumOfPromoted(vs: seq<Variant>, tag: string)
    requires forall i, j | 0 <= i < j < |vs| :: vs[i].tag != vs[j].tag
    ensures PositiveSum(Promoted(vs, tag)) == if HasLabel(vs, tag) then 100 else 0
  {
    if vs != [] {
      var n := |vs| - 1;
      SumOfPromoted(vs[..n], tag);
      assert Promoted(vs, tag)[..n] == Promoted(vs[..n], tag);
      LabelsAppend(vs[..n], vs[n]);
      assert vs == vs[..n] + [vs[n]];
      if vs[n].tag == tag {
        assert !HasLabel(vs[..n], tag);
      }
    }
  }

  /** The lists differ in nothing but weights. */
  ghost predicate SameTargets(vs: seq<Variant>, ws: seq<Variant>) {
    && |vs| == |ws|
    && forall i | 0 <= i < |vs| ::
         vs[i].tag == ws[i].tag && vs[i].endpoint == ws[i].endpoint && vs[i].model == ws[i].model
  }

  lemma PromotionKeepsValid(vs: seq<Variant>, tag: string)
    requires Valid(vs) && HasLabel(vs, tag)
    ensures Valid(Promoted(vs, tag)) && PositiveSum(Promoted(vs, tag)) == 100
  {
    SumOfPromoted(vs, tag);
  }

  /** Promotion keeps a list valid, and from then on every draw picks the promoted label. */
  lemma PromotionTakesAllDraws(vs: seq<Variant>, tag: string, n: nat)
    requires Valid(vs) && HasLabel(vs, tag)
    ensures Valid(Promoted(vs, tag)) && PositiveSum(Promoted(vs, tag)) == 100
    ensures n < 100 ==> var at := Chosen(Promoted(vs, tag), n); 0 <= at < |vs| && vs[at].tag == tag
    ensures SameTargets(Promoted(vs, tag), vs)
  {
    PromotionKeepsValid(vs, tag);
    if n < 100 {
      var next := Promoted(vs, tag);
      DrawAlwaysChooses(next, n);
      assert next[Chosen(next, n)].weight > 0;
    }
  }

  // ---------- The policy table ----------

  datatype Target = Target(tag: string, endpoint: string, model: string)

  /** A row; `prev` is the snapshot a promotion leaves in the metadata. */
  datatype Policy = Policy(description: string, enabled: bool, variants: seq<Variant>, shadow: Option<Target>,
                           prev: Option<seq<Variant>>)

  /** A request body as decoded: absent fields are None. */
  datatype Request = Request(description: string, enabled: Option<bool>, variants: Option<seq<Variant>>,
                             shadow: Option<Target>)

  function Listed(variants: Option<seq<Variant>>): seq<Variant> { if variants.Some? then variants.value else [] }

  function ShadowOf(shadow: Option<Target>): Option<Target> {
    if shadow.Some? && Blank(shadow.value.endpoint) then None else shadow
  }

  function Created(req: Request): Policy {
    Policy(req.description, if req.enabled.Some? then req.enabled.value else true, Listed(req.variants),
           ShadowOf(req.shadow), None)
  }

  /** The row as an update leaves it, computed from the row it loaded. */
  function Updated(cur: Policy, req: Request): Policy {
    Policy(req.description, if req.enabled.Some? then req.enabled.value else cur.enabled,
           if req.variants.Some? then req.variants.value else cur.variants,
           if req.shadow.Some? then ShadowOf(req.shadow) else cur.shadow, cur.prev)
  }

  datatype Outcome = Done | NotFound | BadRequest | Conflict

  /** A row before anything is asked of it. */
  const FRESH := Policy("", true, [], None, None)

  /** What was asked for is as asked, what was not is as before; a shadow without an endpoint asks for none. */
  ghost predicate AsAsked(row: Policy, req: Request, before: Policy) {
    && row.description == req.description && row.prev == before.prev
    && (req.enabled == None ==> row.enabled == before.enabled)
    && (req.enabled.Some? ==> row.enabled == req.enabled.value)
    && (req.variants == None ==> row.variants == before.variants)
    && (req.variants.Some? ==> row.variants == req.variants.value)
    && (req.shadow == None ==> row.shadow == before.shadow)
    && (req.shadow.Some? ==>
          row.shadow == if forall c | c in req.shadow.value.endpoint :: IsSpace(c) then None else req.shadow)
  }

  ghost predicate OnlyRow(rows: map<string, Policy>, before: map<string, Policy>, name: string) {
    rows.Keys == before.Keys + {name} && forall n | n in before && n != name :: rows[n] == before[n]
  }

  /** The steps, taken with no other handler about, lead from one table to the other. */
  ghost predicate Serves(before: map<string, Policy>, steps: seq<Step>, rows: map<string, Policy>) {
    Run(System(before, map[]), steps) && End(System(before, map[]), steps) == System(rows, map[])
  }

  lemma ServesInTwo(before: map<string, Policy>, load: Step, write: Step, rows: map<string, Policy>)
    requires Can(System(before, map[]), load)
    requires Can(Do(System(before, map[]), load), write)
    requires Do(Do(System(before, map[]), load), write) == System(rows, map[])
    ensures Serves(before, [load, write], rows)
  {
    var mid := Do(System(before, map[]), load);
    assert [write][0] == write && [write][1..] == [];
    assert Run(Do(mid, write), []) && End(Do(mid, write), []) == Do(mid, write);
    assert Run(mid, [write]) && End(mid, [write]) == Do(mid, write);
    assert [load, write][0] == load && [load, write][1..] == [write];
  }

  /** A load and a write with nothing in between. */
  lemma LoadThenWrite(before: map<string, Policy>, load: Step, h: Handler)
    requires Can(System(before, map[]), load) && Do(System(before, map[]), load) == System(before, map[0 := h])
    requires h.name in before
    ensures Serves(before, [load, Write(0)], before[h.name := Written(h, before[h.name])])
  {
    var mid := System(before, map[0 := h]);
    assert mid.handlers[0] == h && mid.handlers - {0} == map[];
    ServesInTwo(before, load, Write(0), before[h.name := Written(h, before[h.name])]);
  }

  class PolicyTable {
    var rows: map<string, Policy>

    constructor ()
      ensures rows == map[]
    {
      rows := map[];
    }

    /** `name` comes trimmed. */
    method Create(name: string, req: Request) returns (r: Outcome)
      modifies this
      ensures r == if name == "" || Judged(Listed(req.variants)) != Ok then BadRequest
                   else if name in old(rows) then Conflict else Done
      ensures rows == if r == Done then old(rows)[name := Created(req)] else old(rows)
      ensures r == Done ==> OnlyRow(rows, old(rows), name) && AsAsked(rows[name], req, FRESH)
    {
      if name == "" {
        return BadRequest;
      }
      var verdict := ValidateVariants(Listed(req.variants));
      if verdict != Ok {
        return BadRequest;
      }
      if name in rows {
        return Conflict;
      }
      rows := rows[name := Created(req)];
      r := Done;
    }

    method Update(name: string, req: Request) returns (r: Outcome)
      modifies this
      ensures r == if name !in old(rows) then NotFound
                   else if req.variants.Some? && Judged(req.variants.value) != Ok then BadRequest else Done
      ensures rows == if r == Done then old(rows)[name := Updated(old(rows)[name], req)] else old(rows)
      ensures r == Done ==> OnlyRow(rows, old(rows), name) && AsAsked(rows[name], req, old(rows)[name])
      ensures r == Done ==> Serves(old(rows), [LoadForUpdate(0, name, req), Write(0)], rows)
    {
      if name !in rows {
        return NotFound;
      }
      if req.variants.Some? {
        var verdict := ValidateVariants(req.variants.value);
        if verdict != Ok {
          return BadRequest;
        }
      }
      LoadThenWrite(rows, LoadForUpdate(0, name, req), Updating(name, req, rows[name]));
      rows := rows[name := Updated(rows[name], req)];
      r := Done;
    }

    method Promote(name: string, tag: string) returns (r: Outcome)
      modifies this
      ensures r == if Blank(tag) then BadRequest else if name !in old(rows) then NotFound
                   else if !HasLabel(old(rows)[name].variants, tag) then BadRequest else Done
      ensures rows == if r == Done then
                        var p := old(rows)[name];
                        old(rows)[name := p.(variants := Promoted(p.variants, tag), prev := Some(p.variants))]
                      else old(rows)
      ensures r == Done ==> Serves(old(rows), [LoadForPromote(0, name, tag), Write(0)], rows)
    {
      if Blank(tag) {
        return BadRequest;
      }
      if name !in rows {
        return NotFound;
      }
      var cur := rows[name];
      var next, found := PromoteWeights(cur.variants, tag);
      if !found {
        return BadRequest;
      }
      LoadThenWrite(rows, LoadForPromote(0, name, tag), Promoting(name, tag, cur));
      rows := rows[name := cur.(variants := next, prev := Some(cur.variants))];
      r := Done;
    }

    method Rollback(name: string) returns (r: Outcome)
      modifies this
      ensures r == if name !in old(rows) then NotFound
                   else if old(rows)[name].prev.None? || Judged(old(rows)[name].prev.value) != Ok then BadRequest
                   else Done
      ensures rows == if r == Done then
                        var p := old(rows)[name];
                        old(rows)[name := p.(variants := p.prev.value, prev := None)]
                      else old(rows)
      ensures r == Done ==> Serves(old(rows), [LoadForRollback(0, name), Write(0)], rows)
    {
      if name !in rows {
        return NotFound;
      }
      var p := rows[name];
      if p.prev.None? {
        return BadRequest;
      }
      var verdict := ValidateVariants(p.prev.value);
      if verdict != Ok {
        return BadRequest;
      }
      LoadThenWrite(rows, LoadForRollback(0, name), RollingBack(name, p.prev.value));
      rows := rows[name := p.(variants := p.prev.value, prev := None)];
      r := Done;
    }

    /** A rollback straight after a promotion gives back the exact rows. */
    method PromoteThenRollback(name: string, tag: string)
      requires name in rows && Valid(rows[name].variants) && HasLabel(rows[name].variants, tag) && !Blank(tag)
      modifies this
      ensures rows == old(rows)[name := old(rows)[name].(prev := None)]
    {
      AcceptedIffValid(rows[name].variants);
      var promoted := Promote(name, tag);
      var rolledBack := Rollback(name);
    }
  }

  // ---------- Handlers that interleave ----------

  /** A handler between reading the row and writing it back. */
  datatype Handler =
    | Updating(name: string, req: Request, loaded: Policy)
    | Promoting(name: string, tag: string, loaded: Policy)
    | RollingBack(name: string, prev: seq<Variant>)

  datatype System = System(rows: map<string, Policy>, handlers: map<nat, Handler>)

  datatype Step =
    | Create(name: string, req: Request)
    | Delete(name: string)
    | LoadForUpdate(id: nat, name: string, req: Request)
    | LoadForPromote(id: nat, name: string, tag: string)
    | LoadForRollback(id: nat, name: string)
    | Write(id: nat)
    | Fail(id: nat)

  ghost predicate Can(s: System, step: Step) {
    match step
    case Create(name, req) => name != "" && name !in s.rows && Judged(Listed(req.variants)) == Ok
    case Delete(name) => name in s.rows
    case LoadForUpdate(id, name, req) =>
      id !in s.handlers && name in s.rows && (req.variants.Some? ==> Judged(req.variants.value) == Ok)
    case LoadForPromote(id, name, tag) =>
      id !in s.handlers && name in s.rows && !Blank(tag) && HasLabel(s.rows[name].variants, tag)
    case LoadForRollback(id, name) =>
      id !in s.handlers && name in s.rows && s.rows[name].prev.Some? && Judged(s.rows[name].prev.value) == Ok
    case Write(id) => id in s.handlers
    case Fail(id) => id in s.handlers
  }

  /** The UPDATE statement of a handler against the row as it is by then: an update does not touch the
      snapshot, a promotion and a rollback touch nothing but variants and snapshot. */
  ghost function Written(h: Handler, row: Policy): Policy {
    match h
    case Updating(_, req, loaded) => Updated(loaded, req).(prev := row.prev)
    case Promoting(_, tag, loaded) =>
      row.(variants := Promoted(loaded.variants, tag), prev := Some(loaded.variants))
    case RollingBack(_, prev) => row.(variants := prev, prev := None)
  }

  ghost function Do(s: System, step: Step): System
    requires Can(s, step)
  {
    match step
    case Create(name, req) => s.(rows := s.rows[name := Created(req)])
    case Delete(name) => s.(rows := s.rows - {name})
    case LoadForUpdate(id, name, req) => s.(handlers := s.handlers[id := Updating(name, req, s.rows[name])])
    case LoadForPromote(id, name, tag) => s.(handlers := s.handlers[id := Promoting(name, tag, s.rows[name])])
    case LoadForRollback(id, name) => s.(handlers := s.handlers[id := RollingBack(name, s.rows[name].prev.value)])
    case Write(id) =>
      var h := s.handlers[id];
      System(if h.name in s.rows then s.rows[h.name := Written(h, s.rows[h.name])] else s.rows, s.handlers - {id})
    case Fail(id) => s.(handlers := s.handlers - {id})
  }

  ghost predicate PolicyValid(p: Policy) {
    Valid(p.variants) && (p.prev.Some? ==> Valid(p.prev.value))
  }

  ghost predicate HandlerValid(h: Handler) {
    match h
    case Updating(_, req, loaded) => PolicyValid(loaded) && (req.variants.Some? ==> Valid(req.variants.value))
    case Promoting(_, tag, loaded) => PolicyValid(loaded) && HasLabel(loaded.variants, tag)
    case RollingBack(_, prev) => Valid(prev)
  }

  ghost predicate AllValid(s: System) {
    && (forall name | name in s.rows :: PolicyValid(s.rows[name]))
    && (forall id | id in s.handlers :: HandlerValid(s.handlers[id]))
  }

  lemma WrittenIsValid(h: Handler, row: Policy)
    requires HandlerValid(h) && PolicyValid(row)
    ensures PolicyValid(Written(h, row))
  {
    if h.Promoting? {
      PromotionKeepsValid(h.loaded.variants, h.tag);
    }
  }

  lemma StepKeepsAllValid(s: System, step: Step)
    requires AllValid(s) && Can(s, step)
    ensures AllValid(Do(s, step))
  {
    match step
    case Create(name, req) => AcceptedIffValid(Listed(req.variants));
    case LoadForUpdate(id, name, req) => AcceptedIffValid(Listed(req.variants));
    case LoadForRollback(id, name) => AcceptedIffValid(s.rows[name].prev.value);
    case Write(id) =>
      var h := s.handlers[id];
      assert HandlerValid(h);
      if h.name in s.rows {
        WrittenIsValid(h, s.rows[h.name]);
      }
    case _ =>
  }

  ghost predicate Run(s: System, steps: seq<Step>)
    decreases |steps|
  {
    steps != [] ==> Can(s, steps[0]) && Run(Do(s, steps[0]), steps[1..])
  }

  ghost function End(s: System, steps: seq<Step>): System
    requires Run(s, steps)
    decreases |steps|
  {
    if steps == [] then s else End(Do(s, steps[0]), steps[1..])
  }

  lemma {:induction false} RunKeepsAllValid(s: System, steps: seq<Step>)
    requires AllValid(s) && Run(s, steps)
    ensures AllValid(End(s, steps))
    decreases |steps|
  {
    if steps != [] {
      StepKeepsAllValid(s, steps[0]);
      RunKeepsAllValid(Do(s, steps[0]), steps[1..]);
    }
  }

  /** However handlers interleave, every stored policy stays valid, so routing by it always finds a variant
      with positive weight. */
  lemma EveryPolicyRoutes(steps: seq<Step>, name: string, draw: nat)
    requires Run(System(map[], map[]), steps) && name in End(System(map[], map[]), steps).rows
    ensures var vs := End(System(map[], map[]), steps).rows[name].variants;
            && Valid(vs)
            && (draw < Wrap(PositiveSum(vs)) ==> 0 <= Chosen(vs, draw) < |vs| && vs[Chosen(vs, draw)].weight > 0)
  {
    RunKeepsAllValid(System(map[], map[]), steps);
    var s := End(System(map[], map[]), steps);
    assert PolicyValid(s.rows[name]);
    var vs := s.rows[name].variants;
    if draw < Wrap(PositiveSum(vs)) {
      DrawAlwaysChooses(vs, draw);
    }
  }
}
