/** Re-ranking retrieved documents by feedback: a stable sort on a gently boosted score. */
module Rerank {
  import opened Common

  datatype Doc = Doc(id: string, score: real)

  const WEIGHT := 0.1

  /** Any bounded squashing of the vote balance will do; the code uses tanh of half of it. */
  ghost predicate Squashes(squash: int -> real) {
    squash(0) == 0.0 && forall k :: -1.0 < squash(k) < 1.0
  }

  function Votes(signal: map<string, int>, id: string): int { if id in signal then signal[id] else 0 }

  function Boost(d: Doc, signal: map<string, int>, squash: int -> real): real {
    d.score + WEIGHT * squash(Votes(signal, d.id))
  }

  // ---------- The stable sort ----------

  /** Insert behind everything that scores at least as much. */
  function Insert(d: Doc, docs: seq<Doc>, rank: Doc -> real): seq<Doc> {
    if docs == [] then [d]
    else if rank(docs[|docs| - 1]) >= rank(d) then docs + [d]
    else Insert(d, docs[..|docs| - 1], rank) + [docs[|docs| - 1]]
  }

  function StableSorted(docs: seq<Doc>, rank: Doc -> real): seq<Doc> {
    if docs == [] then [] else Insert(docs[|docs| - 1], StableSorted(docs[..|docs| - 1], rank), rank)
  }

  /** The same insertion on positions instead of documents; `key` ranks a position. */
  ghost function InsertPosition(n: nat, from: seq<nat>, key: nat -> real): seq<nat> {
    if from == [] then [n]
    else if key(from[|from| - 1]) >= key(n) then from + [n]
    else InsertPosition(n, from[..|from| - 1], key) + [from[|from| - 1]]
  }

  ghost function Positions(n: nat, key: nat -> real): seq<nat> {
    if n == 0 then [] else InsertPosition(n - 1, Positions(n - 1, key), key)
  }

  /** Higher first, equals in the order they came. */
  ghost predicate Before(a: nat, b: nat, key: nat -> real) {
    key(a) > key(b) || (key(a) == key(b) && a < b)
  }

  ghost predicate InOrder(from: seq<nat>, key: nat -> real) {
    forall i, j | 0 <= i < j < |from| :: Before(from[i], from[j], key)
  }

  ghost predicate AllBefore(from: seq<nat>, x: nat, key: nat -> real) {
    forall i | 0 <= i < |from| :: Before(from[i], x, key)
  }

  ghost predicate AllBelow(from: seq<nat>, n: nat) { forall i | 0 <= i < |from| :: from[i] < n }

  lemma {:induction false} InsertPositionBounds(n: nat, from: seq<nat>, key: nat -> real, x: nat, bound: nat)
    ensures |InsertPosition(n, from, key)| == |from| + 1
    ensures AllBelow(from, bound) && n < bound ==> AllBelow(InsertPosition(n, from, key), bound)
    ensures AllBefore(from, x, key) && Before(n, x, key) ==> AllBefore(InsertPosition(n, from, key), x, key)
  {
    if from != [] {
      InsertPositionBounds(n, from[..|from| - 1], key, x, bound);
    }
  }

  lemma {:induction false} InsertPositionKeepsOrder(n: nat, from: seq<nat>, key: nat -> real)
    requires InOrder(from, key) && AllBelow(from, n)
    ensures InOrder(InsertPosition(n, from, key), key)
  {
    if from != [] {
      var m := |from| - 1;
      if key(from[m]) >= key(n) {
        forall i | 0 <= i < |from| ensures Before(from[i], n, key) {
          assert i == m || Before(from[i], from[m], key);
        }
      } else {
        InsertPositionKeepsOrder(n, from[..m], key);
        InsertPositionBounds(n, from[..m], key, from[m], n + 1);
        assert AllBefore(from[..m], from[m], key);
      }
    }
  }

  lemma BelowMore(from: seq<nat>, n: nat, m: nat)
    requires AllBelow(from, n) && n <= m
    ensures AllBelow(from, m)
  {
  }

  lemma PositionsStep(n: nat, from: seq<nat>, key: nat -> real)
    requires InOrder(from, key) && |from| == n && AllBelow(from, n)
    ensures var out := InsertPosition(n, from, key);
            InOrder(out, key) && |out| == n + 1 && AllBelow(out, n + 1)
  {
    InsertPositionKeepsOrder(n, from, key);
    BelowMore(from, n, n + 1);
    InsertPositionBounds(n, from, key, 0, n + 1);
  }

  lemma {:induction false} PositionsInOrder(n: nat, key: nat -> real)
    ensures InOrder(Positions(n, key), key) && |Positions(n, key)| == n && AllBelow(Positions(n, key), n)
  {
    if n > 0 {
      PositionsInOrder(n - 1, key);
      PositionsStep(n - 1, Positions(n - 1, key), key);
    }
  }

  /** The document at a position, and something harmless past the end. */
  ghost function DocAt(docs: seq<Doc>): nat -> Doc {
    (n: nat) => if n < |docs| then docs[n] else Doc("", 0.0)
  }

  ghost function KeyOf(at: nat -> Doc, rank: Doc -> real): nat -> real { (n: nat) => rank(at(n)) }

  ghost function Pick(at: nat -> Doc, from: seq<nat>): seq<Doc> {
    if from == [] then [] else Pick(at, from[..|from| - 1]) + [at(from[|from| - 1])]
  }

  lemma {:induction false} PickedAt(at: nat -> Doc, from: seq<nat>)
    ensures |Pick(at, from)| == |from| && forall i | 0 <= i < |from| :: Pick(at, from)[i] == at(from[i])
  {
    if from != [] {
      PickedAt(at, from[..|from| - 1]);
    }
  }

  lemma {:induction false} InsertPicks(n: nat, from: seq<nat>, at: nat -> Doc, rank: Doc -> real)
    ensures Pick(at, InsertPosition(n, from, KeyOf(at, rank))) == Insert(at(n), Pick(at, from), rank)
  {
    if from == [] {
      assert [n][..0] == [];
    } else {
      var m, picked := |from| - 1, Pick(at, from);
      assert picked[|picked| - 1] == at(from[m]) && picked[..|picked| - 1] == Pick(at, from[..m]);
      if KeyOf(at, rank)(from[m]) >= KeyOf(at, rank)(n) {
        assert (from + [n])[..|from|] == from;
      } else {
        InsertPicks(n, from[..m], at, rank);
        var inner := InsertPosition(n, from[..m], KeyOf(at, rank));
        assert (inner + [from[m]])[..|inner|] == inner;
      }
    }
  }

  lemma {:induction false} PrefixPicks(docs: seq<Doc>, n: nat, rank: Doc -> real)
    requires n <= |docs|
    ensures StableSorted(docs[..n], rank) == Pick(DocAt(docs), Positions(n, KeyOf(DocAt(docs), rank)))
  {
    if n > 0 {
      PrefixPicks(docs, n - 1, rank);
      InsertPicks(n - 1, Positions(n - 1, KeyOf(DocAt(docs), rank)), DocAt(docs), rank);
      assert docs[..n][..n - 1] == docs[..n - 1];
    }
  }

  /** `from` says where each sorted document was: all places differ, and they go by rank, equals as they came. */
  ghost predicate StablyOrders(out: seq<Doc>, docs: seq<Doc>, rank: Doc -> real, from: seq<nat>) {
    && |out| == |docs| == |from|
    && (forall i | 0 <= i < |out| :: from[i] < |docs| && out[i] == docs[from[i]])
    && (forall i, j | 0 <= i < j < |out| ::
          from[i] != from[j]
          && (rank(out[i]) > rank(out[j]) || (rank(out[i]) == rank(out[j]) && from[i] < from[j])))
  }

  /** The sort is a stable descending permutation. */
  lemma StableSortedOrders(docs: seq<Doc>, rank: Doc -> real) returns (from: seq<nat>)
    ensures StablyOrders(StableSorted(docs, rank), docs, rank, from)
  {
    var at := DocAt(docs);
    var key := KeyOf(at, rank);
    from := Positions(|docs|, key);
    PositionsInOrder(|docs|, key);
    PrefixPicks(docs, |docs|, rank);
    assert docs[..|docs|] == docs;
    PickedAt(at, from);
    PickOrders(docs, rank, from);
  }

  lemma PickOrders(docs: seq<Doc>, rank: Doc -> real, from: seq<nat>)
    requires |from| == |docs| && AllBelow(from, |docs|) && InOrder(from, KeyOf(DocAt(docs), rank))
    ensures forall i, j | 0 <= i < j < |docs| ::
              from[i] != from[j]
              && (rank(docs[from[i]]) > rank(docs[from[j]])
                  || (rank(docs[from[i]]) == rank(docs[from[j]]) && from[i] < from[j]))
  {
    forall i, j | 0 <= i < j < |docs|
      ensures from[i] != from[j]
      ensures rank(docs[from[i]]) > rank(docs[from[j]])
              || (rank(docs[from[i]]) == rank(docs[from[j]]) && from[i] < from[j])
    {
      assert Before(from[i], from[j], KeyOf(DocAt(docs), rank));
    }
  }

  /** Already descending input comes back as it was. */
  lemma {:induction false} SortedStays(docs: seq<Doc>, rank: Doc -> real)
    requires forall i, j | 0 <= i < j < |docs| :: rank(docs[i]) >= rank(docs[j])
    ensures StableSorted(docs, rank) == docs
  {
    if docs != [] {
      SortedStays(docs[..|docs| - 1], rank);
      assert docs == docs[..|docs| - 1] + [docs[|docs| - 1]];
    }
  }

  // ---------- The operations ----------

  function BoostBy(signal: map<string, int>, squash: int -> real): Doc -> real {
    d => Boost(d, signal, squash)
  }

  /** In place on the slice; the library's stable sort is the function above. */
  method RerankByFeedback(docs: array<Doc>, signal: map<string, int>, squash: int -> real)
    modifies docs
    ensures docs[..] == StableSorted(old(docs[..]), BoostBy(signal, squash))
  {
    var sorted := StableSorted(docs[..], BoostBy(signal, squash));
    ghost var from := StableSortedOrders(docs[..], BoostBy(signal, squash));
    forall i | 0 <= i < docs.Length {
      docs[i] := sorted[i];
    }
  }

  function Top(docs: seq<Doc>, k: nat): seq<Doc> { if |docs| > k then docs[..k] else docs }

  const DEFAULT_LIMIT: nat := 5

  /** `ranking` is the whole collection by falling score; a search cuts it to its limit, or to a default if that is
      zero. */
  function Search(ranking: seq<Doc>, limit: nat): seq<Doc> { Top(ranking, if limit == 0 then DEFAULT_LIMIT else limit) }

  /** The wider search, re-ranked and cut. */
  function Reranked(ranking: seq<Doc>, topK: nat, signal: map<string, int>, squash: int -> real): seq<Doc> {
    Top(StableSorted(Search(ranking, topK * 3), BoostBy(signal, squash)), topK)
  }

  /** What a chat retrieves, if the search works and whether or not there are votes to read. */
  method RetrieveDocs(ranking: seq<Doc>, searchOk: bool, topK: nat, rerankOn: bool, signalOk: bool,
                      signal: map<string, int>, squash: int -> real) returns (docs: seq<Doc>, reranked: bool, ok: bool)
    ensures ok == searchOk
    ensures reranked <==> searchOk && rerankOn && signalOk && signal != map[] && ranking != []
    ensures docs == if !searchOk then []
                    else if reranked then Reranked(ranking, topK, signal, squash)
                    else if rerankOn then Top(ranking, topK)
                    else Search(ranking, topK)
  {
    if !searchOk {
      return [], false, false;
    }
    if !rerankOn {
      return Search(ranking, topK), false, true;
    }
    var cand := Search(ranking, topK * 3);
    if |cand| == 0 {
      return cand, false, true;
    }
    if !signalOk || signal == map[] {
      if |cand| > topK {
        cand := cand[..topK];
      }
      return cand, false, true;
    }
    var slice := new Doc[|cand|](i requires 0 <= i < |cand| => cand[i]);
    assert slice[..] == cand;
    RerankByFeedback(slice, signal, squash);
    docs, reranked, ok := slice[..], true, true;
    if |docs| > topK {
      docs := docs[..topK];
    }
  }

  // ---------- Gentleness ----------

  /** A lead of 0.2 in raw score survives any votes. */
  lemma LeadSurvives(a: Doc, b: Doc, signal: map<string, int>, squash: int -> real)
    requires Squashes(squash) && a.score - b.score >= 0.2
    ensures Boost(a, signal, squash) > Boost(b, signal, squash)
  {
    var x, y := squash(Votes(signal, a.id)), squash(Votes(signal, b.id));
    assert -1.0 < x && y < 1.0;
  }

  /** So after re-ranking a document stands before every one it led by that much. */
  lemma LeaderStaysAhead(docs: seq<Doc>, signal: map<string, int>, squash: int -> real, i: nat, j: nat)
    requires Squashes(squash)
    requires var out := StableSorted(docs, BoostBy(signal, squash));
             i < |out| && j < |out| && out[i].score - out[j].score >= 0.2
    ensures i < j
  {
    var rank := BoostBy(signal, squash);
    var out := StableSorted(docs, rank);
    var from := StableSortedOrders(docs, rank);
    LeadSurvives(out[i], out[j], signal, squash);
  }

  /** Enough votes either way bring it arbitrarily close to its bounds, as they do tanh. */
  ghost predicate Saturates(squash: int -> real) {
    forall x: real | x < 1.0 :: Passes(squash, x)
  }

  ghost predicate Passes(squash: int -> real, x: real) { (exists k :: squash(k) > x) && (exists k :: squash(k) < -x) }

  /** The bound is exact for each squashing that saturates: a lead of one document over another holds whatever the
      votes if and only if it is 0.2 or more. */
  lemma LeadIsSafeIff(a: Doc, b: Doc, squash: int -> real)
    requires a.id != b.id && Squashes(squash) && Saturates(squash)
    ensures (forall signal: map<string, int> :: Boost(a, signal, squash) > Boost(b, signal, squash))
       <==> a.score - b.score >= 0.2
  {
    if a.score - b.score >= 0.2 {
      forall signal: map<string, int> ensures Boost(a, signal, squash) > Boost(b, signal, squash) {
        LeadSurvives(a, b, signal, squash);
      }
    } else {
      var signal := SmallerLeadFalls(a, b, squash);
    }
  }

  lemma SmallerLeadFalls(a: Doc, b: Doc, squash: int -> real) returns (signal: map<string, int>)
    requires a.id != b.id && Saturates(squash) && a.score - b.score < 0.2
    ensures Boost(a, signal, squash) <= Boost(b, signal, squash)
  {
    var x := (a.score - b.score) / 0.2;
    assert Passes(squash, x);
    var up :| squash(up) > x;
    var down :| squash(down) < -x;
    signal := map[a.id := down, b.id := up];
    assert Votes(signal, a.id) == down && Votes(signal, b.id) == up;
  }

  /** All-zero votes leave a descending list as it is: re-ranking gives exactly the plain search, unless the limit
      asked for is zero, which only the search replaces by its default. */
  lemma NoVotesNoChangeIff(ranking: seq<Doc>, topK: nat, signal: map<string, int>, squash: int -> real)
    requires Squashes(squash)
    requires forall i, j | 0 <= i < j < |ranking| :: ranking[i].score >= ranking[j].score
    requires forall id | id in signal :: signal[id] == 0
    ensures Reranked(ranking, topK, signal, squash) == Search(ranking, topK) <==> topK > 0 || ranking == []
  {
    var cand, rank := Search(ranking, topK * 3), BoostBy(signal, squash);
    forall i | 0 <= i < |cand| ensures rank(cand[i]) == cand[i].score {
      assert Votes(signal, cand[i].id) == 0;
    }
    SortedStays(cand, rank);
  }

  // ---------- Which way votes move a document ----------

  /** More votes, more boost, as with tanh. */
  ghost predicate Increasing(squash: int -> real) { forall j, k | j < k :: squash(j) < squash(k) }

  /** The net votes of one document against another's; a document without any has zero. */
  ghost predicate MoreVotes(signal: map<string, int>, a: string, b: string) {
    (if a in signal then signal[a] else 0) > (if b in signal then signal[b] else 0)
  }

  /** A document with at least another's score and strictly more votes stands before it. */
  lemma BetterVotedStandsBefore(docs: seq<Doc>, signal: map<string, int>, squash: int -> real, i: nat, j: nat)
    requires Increasing(squash)
    requires var out := StableSorted(docs, BoostBy(signal, squash));
             i < |out| && j < |out| && out[i].score >= out[j].score && MoreVotes(signal, out[i].id, out[j].id)
    ensures i < j
  {
    var rank := BoostBy(signal, squash);
    var out := StableSorted(docs, rank);
    var from := StableSortedOrders(docs, rank);
    assert rank(out[i]) > rank(out[j]);
  }

  /** Every place of the input is somewhere in the output. */
  lemma SomewhereIn(from: seq<nat>, m: nat) returns (i: nat)
    requires Distinct(from) && m < |from| && forall k | 0 <= k < |from| :: from[k] < |from|
    ensures i < |from| && from[i] == m
  {
    MembersOfDistinct(from);
    SameSize(Members(from), Below(|from|));
    assert m in Members(from);
    i :| 0 <= i < |from| && from[i] == m;
  }

  ghost predicate Precedes(out: seq<Doc>, x: Doc, y: Doc) {
    exists i, j :: 0 <= i < j < |out| && out[i] == x && out[j] == y
  }

  lemma FoundAgain(docs: seq<Doc>, rank: Doc -> real, x: Doc) returns (i: nat)
    requires x in docs
    ensures i < |StableSorted(docs, rank)| && StableSorted(docs, rank)[i] == x
  {
    var from := StableSortedOrders(docs, rank);
    var m :| 0 <= m < |docs| && docs[m] == x;
    i := SomewhereIn(from, m);
  }

  lemma HigherPrecedes(docs: seq<Doc>, rank: Doc -> real, x: Doc, y: Doc)
    requires x in docs && y in docs && rank(x) > rank(y)
    ensures Precedes(StableSorted(docs, rank), x, y) && !Precedes(StableSorted(docs, rank), y, x)
  {
    var out := StableSorted(docs, rank);
    var from := StableSortedOrders(docs, rank);
    var i := FoundAgain(docs, rank, x);
    var j := FoundAgain(docs, rank, y);
    assert i < j;
  }

  /** What is ahead of a document after its votes are raised was ahead of it before. */
  lemma AheadAfterIsAheadBefore(s: map<string, int>, v: int, squash: int -> real, d: Doc, x: Doc)
    requires Increasing(squash) && v >= Votes(s, d.id)
    ensures Boost(x, s[d.id := v], squash) > Boost(d, s[d.id := v], squash) ==>
              Boost(x, s, squash) > Boost(d, s, squash)
    ensures Boost(x, s[d.id := v], squash) == Boost(d, s[d.id := v], squash) ==>
              Boost(x, s, squash) >= Boost(d, s, squash)
  {
    assert squash(v) >= squash(Votes(s, d.id));
    if x.id != d.id {
      assert Votes(s[d.id := v], x.id) == Votes(s, x.id);
    }
  }

  lemma AheadStaysAhead(docs: seq<Doc>, s: map<string, int>, v: int, squash: int -> real, from: seq<nat>, p: nat,
                        to: seq<nat>, q: nat, k: nat)
    requires Increasing(squash) && p < |from| && q < |to| && k < q
    requires StablyOrders(StableSorted(docs, BoostBy(s, squash)), docs, BoostBy(s, squash), from)
    requires from[p] == to[q] && v >= Votes(s, docs[from[p]].id)
    requires var rank := BoostBy(s[docs[from[p]].id := v], squash);
             StablyOrders(StableSorted(docs, rank), docs, rank, to)
    ensures to[k] in Members(from[..p])
  {
    var d, m := docs[from[p]], to[k];
    AheadAfterIsAheadBefore(s, v, squash, d, docs[m]);
    var l := SomewhereIn(from, m);
    assert l != p && !(p < l);
    assert from[..p][l] == m;
  }

  /** Raising one document's votes alone never moves it back. */
  lemma MoreVotesNeverMoveBack(docs: seq<Doc>, s: map<string, int>, v: int, squash: int -> real, d: Doc, p: nat, q: nat)
    requires Increasing(squash) && Distinct(docs) && v >= (if d.id in s then s[d.id] else 0)
    requires var out := StableSorted(docs, BoostBy(s, squash)); p < |out| && out[p] == d
    requires var out := StableSorted(docs, BoostBy(s[d.id := v], squash)); q < |out| && out[q] == d
    ensures q <= p
  {
    var from := StableSortedOrders(docs, BoostBy(s, squash));
    var to := StableSortedOrders(docs, BoostBy(s[d.id := v], squash));
    assert from[p] == to[q];
    forall m | m in Members(to[..q]) ensures m in Members(from[..p]) {
      var k :| 0 <= k < q && to[k] == m;
      AheadStaysAhead(docs, s, v, squash, from, p, to, q, k);
    }
    MembersOfDistinct(from[..p]);
    MembersOfDistinct(to[..q]);
    Smaller(Members(to[..q]), Members(from[..p]));
  }

  lemma Smaller<T>(a: set<T>, b: set<T>)
    requires a <= b
    ensures |a| <= |b|
  {
    assert b == a + (b - a);
  }

  /** From some number of votes on, `b` alone upvoted stands before `a`. */
  ghost predicate UpvotesPass(docs: seq<Doc>, squash: int -> real, a: Doc, b: Doc, n: nat) {
    forall k | k >= n :: Precedes(StableSorted(docs, BoostBy(map[b.id := k], squash)), b, a)
  }

  lemma UpvotedBoost(a: Doc, b: Doc, squash: int -> real, k: int)
    requires a.id != b.id && squash(0) == 0.0
    ensures BoostBy(map[b.id := k], squash)(a) == a.score
    ensures BoostBy(map[b.id := k], squash)(b) == b.score + WEIGHT * squash(k)
  {
    assert Votes(map[b.id := k], a.id) == 0 && Votes(map[b.id := k], b.id) == k;
  }

  lemma UpvotesEnough(docs: seq<Doc>, squash: int -> real, a: Doc, b: Doc) returns (n: nat)
    requires Squashes(squash) && Increasing(squash) && Saturates(squash)
    requires a in docs && b in docs && a.id != b.id && a.score - b.score < 0.1
    ensures UpvotesPass(docs, squash, a, b, n)
  {
    var x := (a.score - b.score) / 0.1;
    assert Passes(squash, x);
    var up :| squash(up) > x;
    n := if up < 0 then 0 else up;
    forall k | k >= n ensures Precedes(StableSorted(docs, BoostBy(map[b.id := k], squash)), b, a) {
      UpvotedBoost(a, b, squash, k);
      assert squash(k) >= squash(up);
      HigherPrecedes(docs, BoostBy(map[b.id := k], squash), b, a);
    }
  }

  /** Upvotes alone bring a document past another if and only if the other leads it by less than 0.1. */
  lemma UpvotesPassIff(docs: seq<Doc>, squash: int -> real, a: Doc, b: Doc)
    requires Squashes(squash) && Increasing(squash) && Saturates(squash)
    requires a in docs && b in docs && a.id != b.id
    ensures (exists n: nat :: UpvotesPass(docs, squash, a, b, n)) <==> a.score - b.score < 0.1
  {
    if a.score - b.score < 0.1 {
      var n := UpvotesEnough(docs, squash, a, b);
    } else {
      forall n: nat ensures !UpvotesPass(docs, squash, a, b, n) {
        UpvotedBoost(a, b, squash, n);
        HigherPrecedes(docs, BoostBy(map[b.id := n], squash), a, b);
      }
    }
  }

  /** From some number of votes on, with `b` upvoted and `a` downvoted by it, `b` stands before `a`, whatever the other
      votes. */
  ghost predicate VotesPass(docs: seq<Doc>, squash: int -> real, a: Doc, b: Doc, n: nat) {
    forall signal: map<string, int> | b.id in signal && a.id in signal && signal[b.id] >= n && signal[a.id] + n <= 0 ::
      Precedes(StableSorted(docs, BoostBy(signal, squash)), b, a)
  }

  lemma VotesEnough(docs: seq<Doc>, squash: int -> real, a: Doc, b: Doc) returns (n: nat)
    requires Increasing(squash) && Saturates(squash)
    requires a in docs && b in docs && a.score - b.score < 0.2
    ensures VotesPass(docs, squash, a, b, n)
  {
    var x := (a.score - b.score) / 0.2;
    assert Passes(squash, x);
    var up :| squash(up) > x;
    var down :| squash(down) < -x;
    n := if up > -down then (if up < 0 then 0 else up) else if down > 0 then 0 else -down;
    forall signal: map<string, int> | b.id in signal && a.id in signal && signal[b.id] >= n && signal[a.id] + n <= 0
      ensures Precedes(StableSorted(docs, BoostBy(signal, squash)), b, a)
    {
      assert squash(signal[b.id]) >= squash(up) && squash(signal[a.id]) <= squash(down);
      HigherPrecedes(docs, BoostBy(signal, squash), b, a);
    }
  }

  /** With downvotes for the other as well, if and only if it leads by less than 0.2. */
  lemma VotesPassIff(docs: seq<Doc>, squash: int -> real, a: Doc, b: Doc)
    requires Squashes(squash) && Increasing(squash) && Saturates(squash)
    requires a in docs && b in docs && a.id != b.id
    ensures (exists n: nat :: VotesPass(docs, squash, a, b, n)) <==> a.score - b.score < 0.2
  {
    if a.score - b.score < 0.2 {
      var n := VotesEnough(docs, squash, a, b);
    } else {
      forall n: nat ensures !VotesPass(docs, squash, a, b, n) {
        var signal: map<string, int> := map[a.id := 0 - n, b.id := n];
        LeadSurvives(a, b, signal, squash);
        HigherPrecedes(docs, BoostBy(signal, squash), a, b);
      }
    }
  }

  // ---------- Which documents come back ----------

  function Fewer(m: nat, n: nat): nat { if m <= n then m else n }

  /** The places in the ranking of the documents a re-ranked search returns: the best of the first three times as many,
      in order. */
  ghost predicate TakesBest(out: seq<Doc>, ranking: seq<Doc>, topK: nat, rank: Doc -> real, from: seq<nat>) {
    && |out| == |from| == Fewer(topK, |ranking|) && Distinct(from)
    && (forall i | 0 <= i < |out| :: from[i] < Fewer(3 * topK, |ranking|) && out[i] == ranking[from[i]])
    && (forall i, j | 0 <= i < j < |out| :: AtLeast(ranking, rank, from[i], from[j]))
    && (forall i, m: nat | 0 <= i < |out| && m < Fewer(3 * topK, |ranking|) && m !in from ::
          AtLeast(ranking, rank, from[i], m))
  }

  /** Higher in the new rank, or as high and earlier. */
  ghost predicate AtLeast(ranking: seq<Doc>, rank: Doc -> real, m: nat, n: nat)
    requires m < |ranking| && n < |ranking|
  {
    rank(ranking[m]) > rank(ranking[n]) || (rank(ranking[m]) == rank(ranking[n]) && m < n)
  }

  /** The first `n` of a sorted window of the ranking. */
  lemma FirstTakeBest(ranking: seq<Doc>, window: nat, rank: Doc -> real, all: seq<nat>, n: nat)
    requires window <= |ranking| && n <= window
    requires StablyOrders(StableSorted(ranking[..window], rank), ranking[..window], rank, all)
    ensures Distinct(all[..n])
    ensures forall i | 0 <= i < n :: all[i] < window && StableSorted(ranking[..window], rank)[i] == ranking[all[i]]
    ensures forall i, j | 0 <= i < j < n :: AtLeast(ranking, rank, all[i], all[j])
  {
    var cand := ranking[..window];
    assert forall i | 0 <= i < window :: cand[all[i]] == ranking[all[i]];
  }

  lemma RestIsWorse(ranking: seq<Doc>, window: nat, rank: Doc -> real, all: seq<nat>, n: nat, i: nat, m: nat)
    requires window <= |ranking| && n <= window && i < n && m < window
    requires StablyOrders(StableSorted(ranking[..window], rank), ranking[..window], rank, all)
    ensures all[i] < window && (m in all[..n] || AtLeast(ranking, rank, all[i], m))
  {
    var l := SomewhereIn(all, m);
    assert l < n ==> all[..n][l] == m;
    assert ranking[..window][m] == ranking[m] && ranking[..window][all[i]] == ranking[all[i]];
  }

  lemma RerankedTakesBest(ranking: seq<Doc>, topK: nat, signal: map<string, int>, squash: int -> real)
    returns (from: seq<nat>)
    requires topK > 0
    ensures TakesBest(Reranked(ranking, topK, signal, squash), ranking, topK, BoostBy(signal, squash), from)
  {
    var rank, window, n := BoostBy(signal, squash), Fewer(3 * topK, |ranking|), Fewer(topK, |ranking|);
    assert Search(ranking, topK * 3) == ranking[..window];
    var all := StableSortedOrders(ranking[..window], rank);
    from := all[..n];
    FirstTakeBest(ranking, window, rank, all, n);
    forall i, m: nat | 0 <= i < n && m < window && m !in from ensures AtLeast(ranking, rank, from[i], m) {
      RestIsWorse(ranking, window, rank, all, n, i, m);
    }
  }
}
