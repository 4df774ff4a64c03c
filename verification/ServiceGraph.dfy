/** The call graph folded from finished spans: node counters, edge totals and each edge's rolling rate. */
module ServiceGraph {
  import opened Common
  import RollingRate

  datatype Node = Node(id: string, kind: string, requests: int, errors: int)

  datatype Edge = Edge(source: string, target: string, targetKind: string, total: int, errTotal: int,
                       rate: RollingRate.Ring)

  datatype Graph = Graph(nodes: map<string, Node>, edges: map<string, Edge>)

  /** One call of `record`; `sec` is the wall clock in seconds. */
  datatype Call = Call(source: string, sourceKind: string, target: string, targetKind: string, sec: int, isErr: bool) {
    ghost predicate Counted() { Countable(source, target) }
  }

  ghost predicate Countable(source: string, target: string) { source != "" && target != "" && source != target }

  const NUL: char := '\0'

  function EdgeKey(source: string, target: string): string { source + [NUL] + target }

  function Touch(nodes: map<string, Node>, id: string, kind: string): map<string, Node> {
    if id in nodes then nodes else nodes[id := Node(id, kind, 0, 0)]
  }

  ghost function Recorded(g: Graph, c: Call): Graph
    requires c.sec >= 0 && forall k | k in g.edges :: g.edges[k].rate.Valid()
  {
    if !c.Counted() then g
    else
      var nodes := Touch(Touch(g.nodes, c.source, c.sourceKind), c.target, c.targetKind);
      var tn := nodes[c.target];
      Graph(nodes[c.target := tn.(requests := tn.requests + 1, errors := tn.errors + One(c.isErr))],
            g.edges[EdgeKey(c.source, c.target) := EdgeAfter(g.edges, c)])
  }

  ghost function EdgeAfter(edges: map<string, Edge>, c: Call): Edge
    requires c.sec >= 0 && forall k | k in edges :: edges[k].rate.Valid()
  {
    var key := EdgeKey(c.source, c.target);
    var e := if key in edges then edges[key] else Edge(c.source, c.target, c.targetKind, 0, 0, RollingRate.Empty());
    e.(total := e.total + 1, errTotal := e.errTotal + One(c.isErr), rate := RollingRate.Observe(e.rate, c.sec, c.isErr))
  }

  /** What a reading of the graph leaves: every ring has moved on to the present. */
  ghost function Advanced(g: Graph, sec: int): Graph
    requires forall k | k in g.edges :: g.edges[k].rate.Valid()
  {
    g.(edges := map k | k in g.edges :: MovedOn(g.edges[k], sec))
  }

  function MovedOn(e: Edge, sec: int): Edge
    requires e.rate.Valid()
  {
    e.(rate := RollingRate.Advance(e.rate, sec))
  }

  /** One line of a snapshot: the calls of the last sixty seconds, and all there ever were. */
  datatype EdgeReport = EdgeReport(source: string, target: string, targetKind: string, requests: int, errors: int,
                                   total: int)

  function ReportOf(e: Edge): EdgeReport {
    EdgeReport(e.source, e.target, e.targetKind, RollingRate.Total(e.rate.reqs), RollingRate.Total(e.rate.errs),
               e.total)
  }

  /** All edges but those still pending have moved on. */
  ghost predicate PartlyRead(edges: map<string, Edge>, before: map<string, Edge>, pending: set<string>, sec: int) {
    && edges.Keys == before.Keys
    && forall k | k in before :: before[k].rate.Valid() &&
         edges[k] == if k in pending then before[k] else MovedOn(before[k], sec)
  }

  lemma AllRead(nodes: map<string, Node>, edges: map<string, Edge>, before: map<string, Edge>, sec: int)
    requires PartlyRead(edges, before, {}, sec)
    ensures forall k | k in before :: before[k].rate.Valid()
    ensures Graph(nodes, edges) == Advanced(Graph(nodes, before), sec)
  {
  }

  class ServiceGraph {
    var nodes: map<string, Node>
    var edges: map<string, Edge>

    ghost predicate Valid()
      reads this
    {
      forall k | k in edges :: edges[k].rate.Valid()
    }

    ghost function View(): Graph
      reads this
    {
      Graph(nodes, edges)
    }

    constructor ()
      ensures Valid() && View() == Graph(map[], map[])
    {
      nodes, edges := map[], map[];
    }

    method TouchNode(id: string, kind: string)
      modifies this`nodes
      ensures nodes == Touch(old(nodes), id, kind)
    {
      if id !in nodes {
        nodes := nodes[id := Node(id, kind, 0, 0)];
      }
    }

    method Record(c: Call)
      requires Valid() && c.sec >= 0
      modifies this
      ensures Valid() && View() == Recorded(old(View()), c)
    {
      if c.source == "" || c.target == "" || c.source == c.target {
        return;
      }
      TouchNode(c.source, c.sourceKind);
      TouchNode(c.target, c.targetKind);
      var tn := nodes[c.target];
      tn := tn.(requests := tn.requests + 1);
      if c.isErr {
        tn := tn.(errors := tn.errors + 1);
      }
      nodes := nodes[c.target := tn];
      var key := EdgeKey(c.source, c.target);
      var e: Edge;
      if key in edges {
        e := edges[key];
      } else {
        e := Edge(c.source, c.target, c.targetKind, 0, 0, RollingRate.Empty());
      }
      e := e.(total := e.total + 1);
      if c.isErr {
        e := e.(errTotal := e.errTotal + 1);
      }
      e := e.(rate := RollingRate.Observe(e.rate, c.sec, c.isErr));
      edges := edges[key := e];
    }

    /** The edges' lines, in any order; asking for a sum moves the ring on. */
    method Snapshot(sec: int) returns (report: map<string, EdgeReport>)
      requires Valid() && sec >= 0
      modifies this`edges
      ensures Valid() && View() == Advanced(old(View()), sec)
      ensures report.Keys == edges.Keys && forall k | k in report :: report[k] == ReportOf(edges[k])
    {
      report := map[];
      ghost var before := edges;
      var pending := edges.Keys;
      while pending != {}
        invariant pending <= before.Keys && report.Keys == before.Keys - pending
        invariant Valid() && PartlyRead(edges, before, pending, sec)
        invariant forall k | k in report :: report[k] == ReportOf(edges[k])
        decreases pending
      {
        var k :| k in pending;
        var e := MovedOn(edges[k], sec);
        edges := edges[k := e];
        report := report[k := ReportOf(e)];
        pending := pending - {k};
      }
      AllRead(nodes, edges, before, sec);
    }
  }

  // ---------- What the counters add up to ----------

  /** Totals (or failures only) of the edges into a node. */
  ghost function Incoming(edges: map<string, Edge>, id: string): map<string, int> {
    map k | k in edges && edges[k].target == id :: edges[k].total
  }

  ghost function IncomingErrors(edges: map<string, Edge>, id: string): map<string, int> {
    map k | k in edges && edges[k].target == id :: edges[k].errTotal
  }

  ghost function RequestsOf(g: Graph, id: string): int { if id in g.nodes then g.nodes[id].requests else 0 }

  ghost function ErrorsOf(g: Graph, id: string): int { if id in g.nodes then g.nodes[id].errors else 0 }

  ghost predicate Balanced(g: Graph, id: string) {
    && RequestsOf(g, id) == SumMap(Incoming(g.edges, id))
    && ErrorsOf(g, id) == SumMap(IncomingErrors(g.edges, id))
  }

  /** A source and a target. */
  type Pair = (string, string)

  /** The key tells the countable pairs of a set apart. */
  ghost predicate KeysApart(pairs: iset<Pair>) {
    forall p, q | p in pairs && q in pairs && Countable(p.0, p.1) && Countable(q.0, q.1) ::
      EdgeKey(p.0, p.1) == EdgeKey(q.0, q.1) ==> p == q
  }

  /** Every edge is under its own key and joins a pair of the set. */
  ghost predicate KeyedBy(g: Graph, pairs: iset<Pair>) {
    forall k | k in g.edges ::
      && k == EdgeKey(g.edges[k].source, g.edges[k].target) && g.edges[k].rate.Valid()
      && (g.edges[k].source, g.edges[k].target) in pairs && Countable(g.edges[k].source, g.edges[k].target)
  }

  ghost predicate Within(c: Call, pairs: iset<Pair>) { c.Counted() ==> (c.source, c.target) in pairs }

  lemma RecordKeepsKeys(g: Graph, c: Call, pairs: iset<Pair>)
    requires KeyedBy(g, pairs) && KeysApart(pairs) && c.sec >= 0 && Within(c, pairs)
    ensures KeyedBy(Recorded(g, c), pairs)
    ensures var key := EdgeKey(c.source, c.target);
            c.Counted() && key in g.edges ==> g.edges[key].source == c.source && g.edges[key].target == c.target
  {
    var key := EdgeKey(c.source, c.target);
    if c.Counted() && key in g.edges {
      assert (g.edges[key].source, g.edges[key].target) == (c.source, c.target);
    }
  }

  lemma IncomingUpdate(edges: map<string, Edge>, key: string, e: Edge, id: string)
    requires key in edges ==> edges[key].target == e.target
    ensures Incoming(edges[key := e], id)
         == if id == e.target then Incoming(edges, id)[key := e.total] else Incoming(edges, id)
    ensures IncomingErrors(edges[key := e], id)
         == if id == e.target then IncomingErrors(edges, id)[key := e.errTotal] else IncomingErrors(edges, id)
  {
  }

  lemma NodeCountsAfterRecord(g: Graph, c: Call, id: string)
    requires c.sec >= 0 && c.Counted() && forall k | k in g.edges :: g.edges[k].rate.Valid()
    ensures RequestsOf(Recorded(g, c), id) == RequestsOf(g, id) + One(id == c.target)
    ensures ErrorsOf(Recorded(g, c), id) == ErrorsOf(g, id) + One(id == c.target && c.isErr)
  {
  }

  lemma IncomingSumsAfterRecord(g: Graph, c: Call, id: string, pairs: iset<Pair>)
    requires KeyedBy(g, pairs) && KeysApart(pairs) && c.sec >= 0 && Within(c, pairs) && c.Counted()
    ensures SumMap(Incoming(Recorded(g, c).edges, id)) == SumMap(Incoming(g.edges, id)) + One(id == c.target)
    ensures SumMap(IncomingErrors(Recorded(g, c).edges, id))
         == SumMap(IncomingErrors(g.edges, id)) + One(id == c.target && c.isErr)
  {
    var key, e := EdgeKey(c.source, c.target), EdgeAfter(g.edges, c);
    RecordKeepsKeys(g, c, pairs);
    IncomingUpdate(g.edges, key, e, id);
    SumMapUpdate(Incoming(g.edges, id), key, e.total);
    SumMapUpdate(IncomingErrors(g.edges, id), key, e.errTotal);
    assert Recorded(g, c).edges == g.edges[key := e];
  }

  /** One call keeps a node's counters equal to the sums over its incoming edges. */
  lemma RecordKeepsBalance(g: Graph, c: Call, id: string, pairs: iset<Pair>)
    requires KeyedBy(g, pairs) && KeysApart(pairs) && c.sec >= 0 && Within(c, pairs) && Balanced(g, id)
    ensures Balanced(Recorded(g, c), id)
  {
    if c.Counted() {
      NodeCountsAfterRecord(g, c, id);
      IncomingSumsAfterRecord(g, c, id, pairs);
    }
  }

  lemma AdvanceKeepsBalance(g: Graph, sec: int, id: string)
    requires Balanced(g, id) && forall k | k in g.edges :: g.edges[k].rate.Valid()
    ensures Balanced(Advanced(g, sec), id)
  {
    assert Incoming(Advanced(g, sec).edges, id) == Incoming(g.edges, id);
    assert IncomingErrors(Advanced(g, sec).edges, id) == IncomingErrors(g.edges, id);
  }

  // ---------- Whole runs ----------

  /** A finished span is recorded, or the graph is read. */
  datatype Step = Recording(call: Call) | Reading(now: int) {
    function Sec(): int { if Recording? then call.sec else now }
  }

  ghost predicate Timed(steps: seq<Step>) { forall k | 0 <= k < |steps| :: steps[k].Sec() > 0 }

  ghost predicate Over(steps: seq<Step>, pairs: iset<Pair>) {
    forall k | 0 <= k < |steps| && steps[k].Recording? :: Within(steps[k].call, pairs)
  }

  ghost function Apply(g: Graph, step: Step): (r: Graph)
    requires step.Sec() > 0 && forall k | k in g.edges :: g.edges[k].rate.Valid()
    ensures forall k | k in r.edges :: r.edges[k].rate.Valid()
  {
    match step
    case Recording(call) => Recorded(g, call)
    case Reading(now) => Advanced(g, now)
  }

  ghost function After(steps: seq<Step>): (g: Graph)
    requires Timed(steps)
    ensures forall k | k in g.edges :: g.edges[k].rate.Valid()
  {
    if steps == [] then Graph(map[], map[]) else Apply(After(steps[..|steps| - 1]), steps[|steps| - 1])
  }

  lemma {:induction false} RunKeyedBy(steps: seq<Step>, pairs: iset<Pair>)
    requires Timed(steps) && Over(steps, pairs) && KeysApart(pairs)
    ensures KeyedBy(After(steps), pairs)
  {
    if steps != [] {
      var init, step := steps[..|steps| - 1], steps[|steps| - 1];
      RunKeyedBy(init, pairs);
      if step.Recording? {
        RecordKeepsKeys(After(init), step.call, pairs);
      }
    }
  }

  lemma {:induction false} RunBalances(steps: seq<Step>, id: string, pairs: iset<Pair>)
    requires Timed(steps) && Over(steps, pairs) && KeysApart(pairs)
    ensures Balanced(After(steps), id)
  {
    if steps == [] {
      assert Incoming(map[], id) == map[] && IncomingErrors(map[], id) == map[];
    } else {
      var init, step := steps[..|steps| - 1], steps[|steps| - 1];
      RunBalances(init, id, pairs);
      RunKeyedBy(init, pairs);
      match step
      case Recording(call) => RecordKeepsBalance(After(init), call, id, pairs);
      case Reading(now) => AdvanceKeepsBalance(After(init), now, id);
    }
  }

  lemma TwoSteps(x: Step, y: Step)
    requires x.Sec() > 0 && y.Sec() > 0
    ensures After([x, y]) == Apply(Apply(Graph(map[], map[]), x), y)
  {
    assert [x, y][..1] == [x] && [x][..0] == [];
    assert [x, y][0] == x && [x, y][1] == y;
    assert After([]) == Graph(map[], map[]);
    assert After([x]) == Apply(After([]), x);
  }

  /** Two countable pairs under one key: the second call lands on the first one's edge. */
  lemma SharedKeyUnbalances(p: Pair, q: Pair) returns (steps: seq<Step>)
    requires Countable(p.0, p.1) && Countable(q.0, q.1) && p != q && EdgeKey(p.0, p.1) == EdgeKey(q.0, q.1)
    ensures Timed(steps) && Over(steps, iset{p, q}) && !Balanced(After(steps), q.1)
  {
    var c, d := Call(p.0, "", p.1, "", 1, false), Call(q.0, "", q.1, "", 1, false);
    steps := [Recording(c), Recording(d)];
    if p.1 == q.1 {
      SameTargetSamePair(p, q);
    }
    var key := EdgeKey(p.0, p.1);
    var g := Recorded(Graph(map[], map[]), c);
    var h := Recorded(g, d);
    TwoSteps(Recording(c), Recording(d));
    NodeCountsAfterRecord(Graph(map[], map[]), c, q.1);
    NodeCountsAfterRecord(g, d, q.1);
    assert h.edges.Keys == {key} && h.edges[key].target == p.1;
    assert Incoming(h.edges, q.1) == map[];
  }

  lemma SameTargetSamePair(p: Pair, q: Pair)
    requires EdgeKey(p.0, p.1) == EdgeKey(q.0, q.1) && p.1 == q.1
    ensures p == q
  {
    var k, n := EdgeKey(p.0, p.1), |p.0|;
    assert |k| == n + 1 + |p.1| == |q.0| + 1 + |q.1|;
    assert p.0 == k[..n] && q.0 == k[..n];
  }

  /** For any set of pairs: in every run over them all nodes balance their incoming edges, if and only if the key
      tells the pairs apart. */
  lemma NodesBalanceIff(pairs: iset<Pair>)
    ensures (forall steps: seq<Step>, id: string | Timed(steps) && Over(steps, pairs) :: Balanced(After(steps), id))
       <==> KeysApart(pairs)
  {
    if KeysApart(pairs) {
      forall steps: seq<Step>, id: string | Timed(steps) && Over(steps, pairs) ensures Balanced(After(steps), id) {
        RunBalances(steps, id, pairs);
      }
    } else {
      var p, q :| p in pairs && q in pairs && Countable(p.0, p.1) && Countable(q.0, q.1)
                  && EdgeKey(p.0, p.1) == EdgeKey(q.0, q.1) && p != q;
      var steps := SharedKeyUnbalances(p, q);
      assert Over(steps, pairs);
    }
  }

  /** Pairs whose source has no NUL: all the program can form, its names come from the environment or the database. */
  ghost function NulFree(): iset<Pair> { iset p: Pair | NUL !in p.0 }

  /** The separator keeps edges apart as long as no source contains it. */
  lemma EdgeKeyInjective(s1: string, t1: string, s2: string, t2: string)
    requires NUL !in s1 && NUL !in s2 && EdgeKey(s1, t1) == EdgeKey(s2, t2)
    ensures s1 == s2 && t1 == t2
  {
    var k := EdgeKey(s1, t1);
    assert forall i | 0 <= i < |s1| :: k[i] == s1[i] && s1[i] in s1;
    assert forall i | 0 <= i < |s2| :: k[i] == s2[i] && s2[i] in s2;
    assert k[|s1|] == NUL && k[|s2|] == NUL;
    assert |s1| == |s2|;
    assert s1 == k[..|s1|] && s2 == k[..|s2|];
    assert t1 == k[|s1| + 1..] && t2 == k[|s2| + 1..];
  }

  lemma NulFreeKeysApart()
    ensures KeysApart(NulFree())
  {
    forall p: Pair, q: Pair | NUL !in p.0 && NUL !in q.0 && EdgeKey(p.0, p.1) == EdgeKey(q.0, q.1) ensures p == q {
      EdgeKeyInjective(p.0, p.1, q.0, q.1);
    }
  }

  /** In every run each node's requests and errors are the sums over its incoming edges. */
  lemma {:induction false} NodesBalanceEdges(steps: seq<Step>, id: string)
    requires Timed(steps) && Over(steps, NulFree())
    ensures Balanced(After(steps), id)
  {
    NulFreeKeysApart();
    RunBalances(steps, id, NulFree());
  }

  // ---------- Each node against the log of the calls ----------

  /** A recorded call that joins two named, different ends. */
  ghost predicate Joins(step: Step) {
    step.Recording? && step.call.source != "" && step.call.target != "" && step.call.source != step.call.target
  }

  ghost predicate Mentions(step: Step, id: string) {
    Joins(step) && (step.call.source == id || step.call.target == id)
  }

  ghost function KindGiven(step: Step, id: string): string
    requires Mentions(step, id)
  {
    if step.call.source == id then step.call.sourceKind else step.call.targetKind
  }

  ghost predicate FirstMention(steps: seq<Step>, id: string, k: nat) {
    k < |steps| && Mentions(steps[k], id) && forall j | 0 <= j < k :: !Mentions(steps[j], id)
  }

  lemma ApplyTouches(g: Graph, step: Step, id: string)
    requires step.Sec() > 0 && forall k | k in g.edges :: g.edges[k].rate.Valid()
    ensures id in Apply(g, step).nodes <==> id in g.nodes || Mentions(step, id)
    ensures id in g.nodes ==> Apply(g, step).nodes[id].kind == g.nodes[id].kind
    ensures id !in g.nodes && Mentions(step, id) ==> Apply(g, step).nodes[id].kind == KindGiven(step, id)
  {
  }

  /** The nodes are the ends of the calls, sources included. */
  lemma {:induction false} NodesAreEndsOfCalls(steps: seq<Step>, id: string)
    requires Timed(steps)
    ensures id in After(steps).nodes <==> exists k :: 0 <= k < |steps| && Mentions(steps[k], id)
  {
    if steps != [] {
      var n, init := |steps| - 1, steps[..|steps| - 1];
      NodesAreEndsOfCalls(init, id);
      ApplyTouches(After(init), steps[n], id);
      assert forall k | 0 <= k < n :: init[k] == steps[k];
    }
  }

  /** Each is of the kind the first call that mentions it gave it. */
  lemma {:induction false} NodeKeepsFirstKind(steps: seq<Step>, id: string, k: nat)
    requires Timed(steps) && FirstMention(steps, id, k)
    ensures id in After(steps).nodes && After(steps).nodes[id].kind == KindGiven(steps[k], id)
  {
    var n, init := |steps| - 1, steps[..|steps| - 1];
    ApplyTouches(After(init), steps[n], id);
    if k == n {
      NodesAreEndsOfCalls(init, id);
    } else {
      NodeKeepsFirstKind(init, id, k);
    }
  }

  /** The calls into a node, or those of them that failed. */
  ghost function CallsInto(steps: seq<Step>, id: string, errsOnly: bool): set<nat> {
    set k: nat | k < |steps| && IsInto(steps[k], id, errsOnly)
  }

  ghost predicate IsInto(step: Step, id: string, errsOnly: bool) {
    Joins(step) && step.call.target == id && (errsOnly ==> step.call.isErr)
  }

  lemma CallsIntoStep(steps: seq<Step>, id: string, errsOnly: bool)
    requires steps != []
    ensures var n := |steps| - 1;
            |CallsInto(steps, id, errsOnly)|
            == |CallsInto(steps[..n], id, errsOnly)| + One(IsInto(steps[n], id, errsOnly))
  {
    var n := |steps| - 1;
    var before, now := CallsInto(steps[..n], id, errsOnly), CallsInto(steps, id, errsOnly);
    assert n !in before;
    assert now == before + (if IsInto(steps[n], id, errsOnly) then {n} else {});
  }

  /** A node has counted the calls into it, and the failed ones among them. */
  lemma {:induction false} NodeCountsItsCalls(steps: seq<Step>, id: string)
    requires Timed(steps)
    ensures RequestsOf(After(steps), id) == |CallsInto(steps, id, false)|
    ensures ErrorsOf(After(steps), id) == |CallsInto(steps, id, true)|
  {
    if steps != [] {
      var n, init := |steps| - 1, steps[..|steps| - 1];
      NodeCountsItsCalls(init, id);
      CallsIntoStep(steps, id, false);
      CallsIntoStep(steps, id, true);
      if Joins(steps[n]) {
        NodeCountsAfterRecord(After(init), steps[n].call, id);
      }
    }
  }

  // ---------- Each edge against the log of its own calls ----------

  /** What an edge's ring goes through: its calls, and from the first on every reading of the graph. */
  ghost function OnEdge(steps: seq<Step>, source: string, target: string): seq<RollingRate.Call> {
    if steps == [] then []
    else
      var before := OnEdge(steps[..|steps| - 1], source, target);
      match steps[|steps| - 1]
      case Recording(c) =>
        if c.source == source && c.target == target then before + [RollingRate.Observed(c.sec, c.isErr)] else before
      case Reading(now) => if before == [] then [] else before + [RollingRate.Summed(now)]
  }

  /** The calls from a source to a target, as they happened. */
  ghost function CallsBetween(steps: seq<Step>, source: string, target: string): seq<RollingRate.Event> {
    if steps == [] then []
    else
      CallsBetween(steps[..|steps| - 1], source, target)
      + match steps[|steps| - 1]
        case Recording(c) =>
          if c.source == source && c.target == target then [RollingRate.Event(c.sec, c.isErr)] else []
        case Reading(_) => []
  }

  lemma {:induction false} OnEdgeLogsCalls(steps: seq<Step>, source: string, target: string)
    requires Timed(steps)
    ensures RollingRate.Positive(OnEdge(steps, source, target))
    ensures RollingRate.Log(OnEdge(steps, source, target)) == CallsBetween(steps, source, target)
    ensures OnEdge(steps, source, target) == [] <==> CallsBetween(steps, source, target) == []
  {
    if steps != [] {
      var before, mine := OnEdge(steps[..|steps| - 1], source, target), OnEdge(steps, source, target);
      OnEdgeLogsCalls(steps[..|steps| - 1], source, target);
      if mine != before {
        assert mine[..|before|] == before;
      }
    }
  }

  /** The edge under a key is as the steps `mine` of the pair alone make it. */
  ghost predicate Follows(g: Graph, source: string, target: string, calls: seq<RollingRate.Event>,
                          mine: seq<RollingRate.Call>)
    requires RollingRate.Positive(mine)
  {
    var key := EdgeKey(source, target);
    && (key in g.edges <==> calls != [])
    && (calls != [] ==>
          && g.edges[key].source == source && g.edges[key].target == target
          && g.edges[key].total == |calls| && g.edges[key].errTotal == |Failures(calls)|
          && g.edges[key].rate == RollingRate.After(mine))
  }

  /** Which of an edge's calls failed. */
  ghost function Failures(calls: seq<RollingRate.Event>): set<nat> { set k: nat | k < |calls| && calls[k].isErr }

  lemma FailuresAppend(calls: seq<RollingRate.Event>, e: RollingRate.Event)
    ensures |Failures(calls + [e])| == |Failures(calls)| + One(e.isErr)
  {
    assert Failures(calls + [e]) == Failures(calls) + (if e.isErr then {|calls|} else {});
  }

  lemma CallFollows(g: Graph, c: Call, calls: seq<RollingRate.Event>, mine: seq<RollingRate.Call>)
    requires RollingRate.Positive(mine) && c.sec > 0 && c.Counted() && (calls == [] <==> mine == [])
    requires forall k | k in g.edges :: g.edges[k].rate.Valid()
    requires Follows(g, c.source, c.target, calls, mine)
    ensures var more := mine + [RollingRate.Observed(c.sec, c.isErr)];
            RollingRate.Positive(more) &&
            Follows(Recorded(g, c), c.source, c.target, calls + [RollingRate.Event(c.sec, c.isErr)], more)
  {
    var obs := RollingRate.Observed(c.sec, c.isErr);
    FailuresAppend(calls, RollingRate.Event(c.sec, c.isErr));
    assert (mine + [obs])[..|mine|] == mine;
    assert RollingRate.After(mine + [obs]) == RollingRate.Apply(RollingRate.After(mine), obs);
  }

  lemma ReadingFollows(g: Graph, source: string, target: string, now: int, calls: seq<RollingRate.Event>,
                       mine: seq<RollingRate.Call>)
    requires RollingRate.Positive(mine) && now > 0 && mine != []
    requires forall k | k in g.edges :: g.edges[k].rate.Valid()
    requires Follows(g, source, target, calls, mine)
    ensures var more := mine + [RollingRate.Summed(now)];
            RollingRate.Positive(more) && Follows(Advanced(g, now), source, target, calls, more)
  {
    var sum := RollingRate.Summed(now);
    assert (mine + [sum])[..|mine|] == mine;
    assert RollingRate.After(mine + [sum]) == RollingRate.Apply(RollingRate.After(mine), sum);
  }

  lemma OtherCallFollows(g: Graph, c: Call, source: string, target: string, calls: seq<RollingRate.Event>,
                         mine: seq<RollingRate.Call>, pairs: iset<Pair>)
    requires RollingRate.Positive(mine) && KeyedBy(g, pairs) && KeysApart(pairs) && c.sec > 0 && Within(c, pairs)
    requires (source, target) in pairs && Countable(source, target) && (c.source, c.target) != (source, target)
    requires Follows(g, source, target, calls, mine)
    ensures Follows(Recorded(g, c), source, target, calls, mine)
  {
    assert c.Counted() ==> EdgeKey(c.source, c.target) != EdgeKey(source, target);
  }

  /** An edge's total is the number of its calls, and its ring is the one those calls and the readings produce. */
  lemma {:induction false} EdgeFollowsItsCalls(steps: seq<Step>, source: string, target: string, pairs: iset<Pair>)
    requires Timed(steps) && Over(steps, pairs) && KeysApart(pairs)
    requires (source, target) in pairs && Countable(source, target)
    ensures RollingRate.Positive(OnEdge(steps, source, target))
    ensures Follows(After(steps), source, target, CallsBetween(steps, source, target), OnEdge(steps, source, target))
  {
    OnEdgeLogsCalls(steps, source, target);
    if steps != [] {
      var init, step := steps[..|steps| - 1], steps[|steps| - 1];
      EdgeFollowsItsCalls(init, source, target, pairs);
      OnEdgeLogsCalls(init, source, target);
      RunKeyedBy(init, pairs);
      var calls, mine := CallsBetween(init, source, target), OnEdge(init, source, target);
      match step
      case Recording(c) =>
        if c.source == source && c.target == target {
          CallFollows(After(init), c, calls, mine);
        } else {
          assert calls + [] == calls;
          OtherCallFollows(After(init), c, source, target, calls, mine, pairs);
        }
      case Reading(now) =>
        assert calls + [] == calls;
        if mine != [] {
          ReadingFollows(After(init), source, target, now, calls, mine);
        }
    }
  }

  /** So a snapshot reports, for an edge whose calls came promptly, the number of its calls and failures in the
      sixty seconds up to it (or up to the newest second the edge had seen), and the number there ever were. */
  lemma {:induction false} SnapshotCountsCalls(steps: seq<Step>, now: int, source: string, target: string)
    requires Timed(steps) && Over(steps, NulFree()) && now > 0 && NUL !in source && Countable(source, target)
    requires CallsBetween(steps, source, target) != [] && RollingRate.Prompt(OnEdge(steps, source, target))
    ensures var calls := CallsBetween(steps, source, target);
            var newest := RollingRate.Later(RollingRate.Newest(OnEdge(steps, source, target)), now);
            var key, edges := EdgeKey(source, target), Advanced(After(steps), now).edges;
            && key in edges
            && ReportOf(edges[key]) == EdgeReport(source, target, edges[key].targetKind,
                                                  RollingRate.WindowCount(calls, newest, false),
                                                  RollingRate.WindowCount(calls, newest, true), |calls|)
  {
    NulFreeKeysApart();
    EdgeFollowsItsCalls(steps, source, target, NulFree());
    OnEdgeLogsCalls(steps, source, target);
    RollingRate.SumNowCountsLog(OnEdge(steps, source, target), now);
  }

  ghost predicate FirstBetween(steps: seq<Step>, source: string, target: string, k: nat) {
    k < |steps| && IsBetween(steps[k], source, target) && forall j | 0 <= j < k :: !IsBetween(steps[j], source, target)
  }

  ghost predicate IsBetween(step: Step, source: string, target: string) {
    step.Recording? && step.call.source == source && step.call.target == target
  }

  lemma {:induction false} NoCallBetween(steps: seq<Step>, source: string, target: string)
    ensures CallsBetween(steps, source, target) == []
       <==> forall j | 0 <= j < |steps| :: !IsBetween(steps[j], source, target)
  {
    if steps != [] {
      var n := |steps| - 1;
      NoCallBetween(steps[..n], source, target);
      assert forall j | 0 <= j < n :: steps[..n][j] == steps[j];
    }
  }

  lemma StepKeepsKind(g: Graph, step: Step, source: string, target: string, pairs: iset<Pair>)
    requires KeyedBy(g, pairs) && KeysApart(pairs) && step.Sec() > 0
    requires step.Recording? ==> Within(step.call, pairs)
    requires (source, target) in pairs && Countable(source, target)
    ensures var key := EdgeKey(source, target);
            key in g.edges ==> key in Apply(g, step).edges
                               && Apply(g, step).edges[key].targetKind == g.edges[key].targetKind
  {
  }

  /** An edge's target is of the kind its first call named. */
  lemma {:induction false} EdgeKeepsFirstKind(steps: seq<Step>, source: string, target: string, k: nat,
                                              pairs: iset<Pair>)
    requires Timed(steps) && Over(steps, pairs) && KeysApart(pairs)
    requires (source, target) in pairs && Countable(source, target) && FirstBetween(steps, source, target, k)
    ensures var key := EdgeKey(source, target);
            key in After(steps).edges && After(steps).edges[key].targetKind == steps[k].call.targetKind
  {
    var n, init := |steps| - 1, steps[..|steps| - 1];
    if k == n {
      EdgeFollowsItsCalls(init, source, target, pairs);
      NoCallBetween(init, source, target);
    } else {
      EdgeKeepsFirstKind(init, source, target, k, pairs);
      RunKeyedBy(init, pairs);
      StepKeepsKind(After(init), steps[n], source, target, pairs);
    }
  }
}
