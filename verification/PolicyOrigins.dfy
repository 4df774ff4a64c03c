/** Where the variants of a stored routing policy come from, however handlers interleave. */
module PolicyOrigins {
  import opened Common
  import opened Routing

  /** The lists a step brings in from outside. */
  ghost function Brings(step: Step): set<seq<Variant>> {
    match step
    case Create(_, req) => {Listed(req.variants)}
    case LoadForUpdate(_, _, req) => if req.variants.Some? then {req.variants.value} else {}
    case _ => {}
  }

  ghost predicate From(vs: seq<Variant>, known: set<seq<Variant>>) { exists w :: w in known && SameTargets(vs, w) }

  ghost predicate PolicyFrom(p: Policy, known: set<seq<Variant>>) {
    From(p.variants, known) && (p.prev.Some? ==> From(p.prev.value, known))
  }

  ghost predicate HandlerFrom(h: Handler, known: set<seq<Variant>>) {
    match h
    case Updating(_, req, loaded) =>
      PolicyFrom(loaded, known) && (req.variants.Some? ==> From(req.variants.value, known))
    case Promoting(_, _, loaded) => PolicyFrom(loaded, known)
    case RollingBack(_, prev) => From(prev, known)
  }

  ghost predicate AllFrom(s: System, known: set<seq<Variant>>) {
    && (forall name | name in s.rows :: PolicyFrom(s.rows[name], known))
    && (forall id | id in s.handlers :: HandlerFrom(s.handlers[id], known))
  }

  lemma FromMore(vs: seq<Variant>, known: set<seq<Variant>>, more: set<seq<Variant>>)
    ensures From(vs, known) ==> From(vs, known + more)
  {
    if w :| w in known && SameTargets(vs, w) {
      assert w in known + more;
    }
  }

  lemma PolicyFromMore(p: Policy, known: set<seq<Variant>>, more: set<seq<Variant>>)
    requires PolicyFrom(p, known)
    ensures PolicyFrom(p, known + more)
  {
    FromMore(p.variants, known, more);
    if p.prev.Some? {
      FromMore(p.prev.value, known, more);
    }
  }

  lemma AllFromMore(s: System, known: set<seq<Variant>>, more: set<seq<Variant>>)
    requires AllFrom(s, known)
    ensures AllFrom(s, known + more)
  {
    forall name | name in s.rows ensures PolicyFrom(s.rows[name], known + more) {
      PolicyFromMore(s.rows[name], known, more);
    }
    forall id | id in s.handlers ensures HandlerFrom(s.handlers[id], known + more) {
      match s.handlers[id]
      case Updating(_, req, loaded) =>
        PolicyFromMore(loaded, known, more);
        if req.variants.Some? {
          FromMore(req.variants.value, known, more);
        }
      case Promoting(_, _, loaded) => PolicyFromMore(loaded, known, more);
      case RollingBack(_, prev) => FromMore(prev, known, more);
    }
  }

  lemma PromotedFrom(vs: seq<Variant>, tag: string, known: set<seq<Variant>>)
    requires From(vs, known)
    ensures From(Promoted(vs, tag), known)
  {
    var w :| w in known && SameTargets(vs, w);
    assert SameTargets(Promoted(vs, tag), w);
  }

  lemma KnownIsFrom(vs: seq<Variant>, known: set<seq<Variant>>)
    requires vs in known
    ensures From(vs, known)
  {
    assert SameTargets(vs, vs);
  }

  lemma WrittenFrom(h: Handler, row: Policy, known: set<seq<Variant>>)
    requires HandlerFrom(h, known) && PolicyFrom(row, known)
    ensures PolicyFrom(Written(h, row), known)
  {
    if h.Promoting? {
      PromotedFrom(h.loaded.variants, h.tag, known);
    }
  }

  lemma StepKeepsOrigins(s: System, step: Step, known: set<seq<Variant>>)
    requires AllFrom(s, known) && Can(s, step)
    ensures AllFrom(Do(s, step), known + Brings(step))
  {
    var all := known + Brings(step);
    AllFromMore(s, known, Brings(step));
    match step
    case Create(name, req) => KnownIsFrom(Listed(req.variants), all);
    case LoadForUpdate(id, name, req) =>
      assert PolicyFrom(s.rows[name], all);
      if req.variants.Some? {
        KnownIsFrom(req.variants.value, all);
      }
    case LoadForPromote(id, name, tag) =>
      assert PolicyFrom(s.rows[name], all);
    case LoadForRollback(id, name) =>
      assert PolicyFrom(s.rows[name], all);
    case Write(id) =>
      assert HandlerFrom(s.handlers[id], all);
      if s.handlers[id].name in s.rows {
        WrittenFrom(s.handlers[id], s.rows[s.handlers[id].name], all);
      }
    case _ =>
  }

  ghost function Brought(steps: seq<Step>): set<seq<Variant>> {
    if steps == [] then {} else Brings(steps[0]) + Brought(steps[1..])
  }

  lemma {:induction false} BroughtBySome(steps: seq<Step>, w: seq<Variant>)
    ensures w in Brought(steps) <==> exists k :: 0 <= k < |steps| && w in Brings(steps[k])
  {
    if steps != [] {
      BroughtBySome(steps[1..], w);
      assert forall k | 0 < k < |steps| :: steps[k] == steps[1..][k - 1];
      if w in Brought(steps[1..]) {
        var k :| 0 <= k < |steps[1..]| && w in Brings(steps[1..][k]);
        assert w in Brings(steps[k + 1]);
      }
    }
  }

  lemma {:induction false} RunKeepsOrigins(s: System, steps: seq<Step>, known: set<seq<Variant>>)
    requires AllFrom(s, known) && Run(s, steps)
    ensures AllFrom(End(s, steps), known + Brought(steps))
    decreases |steps|
  {
    if steps == [] {
      assert known + {} == known;
    } else {
      StepKeepsOrigins(s, steps[0], known);
      RunKeepsOrigins(Do(s, steps[0]), steps[1..], known + Brings(steps[0]));
      assert known + Brings(steps[0]) + Brought(steps[1..]) == known + Brought(steps);
    }
  }

  /** In every interleaving a stored policy routes to the labels, endpoints and models of one list that a request
      brought, all of it; only the weights may be others. So does its snapshot. */
  lemma {:induction false} StoredListsWereAsked(steps: seq<Step>, name: string)
    requires Run(System(map[], map[]), steps) && name in End(System(map[], map[]), steps).rows
    ensures var p := End(System(map[], map[]), steps).rows[name];
            && (exists k, w :: 0 <= k < |steps| && w in Brings(steps[k]) && SameTargets(p.variants, w))
            && (p.prev.Some? ==>
                  exists k, w :: 0 <= k < |steps| && w in Brings(steps[k]) && SameTargets(p.prev.value, w))
  {
    RunKeepsOrigins(System(map[], map[]), steps, {});
    var p := End(System(map[], map[]), steps).rows[name];
    assert PolicyFrom(p, {} + Brought(steps));
    AskedOnce(p.variants, steps);
    if p.prev.Some? {
      AskedOnce(p.prev.value, steps);
    }
  }

  lemma AskedOnce(vs: seq<Variant>, steps: seq<Step>)
    requires From(vs, {} + Brought(steps))
    ensures exists k, w :: 0 <= k < |steps| && w in Brings(steps[k]) && SameTargets(vs, w)
  {
    var w :| w in {} + Brought(steps) && SameTargets(vs, w);
    BroughtBySome(steps, w);
    var k :| 0 <= k < |steps| && w in Brings(steps[k]);
  }
}
