/** Small value types shared by the component models. */
module Common {
  datatype Option<+T> = None | Some(value: T)

  function MinR(a: real, b: real): real { if a <= b then a else b }

  function MaxR(a: real, b: real): real { if a >= b then a else b }

  function One(b: bool): nat { if b then 1 else 0 }

  ghost predicate Distinct<T>(s: seq<T>) {
    forall i, j | 0 <= i < j < |s| :: s[i] != s[j]
  }

  ghost function Members<T>(s: seq<T>): (r: set<T>)
    ensures (forall x | x in s :: x in r) && (forall x | x in r :: x in s)
  {
    set x | x in s
  }

  lemma {:induction false} MembersOfDistinct<T>(s: seq<T>)
    requires Distinct(s)
    ensures |Members(s)| == |s|
  {
    if s != [] {
      MembersOfDistinct(s[1..]);
      assert Members(s) == Members(s[1..]) + {s[0]};
    }
  }

  ghost function Below(m: nat): (r: set<nat>)
    ensures |r| == m && forall d: nat :: d in r <==> d < m
  {
    if m == 0 then {} else Below(m - 1) + {m - 1}
  }

  lemma SameSize<T>(a: set<T>, b: set<T>)
    requires a <= b && |a| == |b|
    ensures a == b
  {
    assert |b| == |a| + |b - a| by { assert b == a + (b - a); }
    assert b - a == {};
  }

  lemma ConcatAssociates<T>(x: seq<T>, y: seq<T>, z: seq<T>)
    ensures x + (y + z) == (x + y) + z
  {
  }

  ghost function SumOver<K>(m: map<K, int>, keys: set<K>): int
    requires keys <= m.Keys
    decreases keys
  {
    if keys == {} then 0
    else
      var k :| k in keys;
      m[k] + SumOver(m, keys - {k})
  }

  /** Sum of a map's values. */
  ghost function SumMap<K>(m: map<K, int>): int { SumOver(m, m.Keys) }

  lemma {:induction false} SumOverSplit<K>(m: map<K, int>, keys: set<K>, k: K)
    requires keys <= m.Keys && k in keys
    ensures SumOver(m, keys) == m[k] + SumOver(m, keys - {k})
    decreases keys
  {
    var j :| j in keys && SumOver(m, keys) == m[j] + SumOver(m, keys - {j});
    if j != k {
      SumOverSplit(m, keys - {j}, k);
      SumOverSplit(m, keys - {k}, j);
      assert keys - {j} - {k} == keys - {k} - {j};
    }
  }

  lemma {:induction false} SumOverSame<K>(m: map<K, int>, n: map<K, int>, keys: set<K>)
    requires keys <= m.Keys && keys <= n.Keys && forall k | k in keys :: m[k] == n[k]
    ensures SumOver(m, keys) == SumOver(n, keys)
    decreases keys
  {
    if keys != {} {
      var k :| k in keys;
      SumOverSplit(m, keys, k);
      SumOverSplit(n, keys, k);
      SumOverSame(m, n, keys - {k});
    }
  }

  lemma SumMapUpdate<K>(m: map<K, int>, k: K, v: int)
    ensures SumMap(m[k := v]) == SumMap(m) - (if k in m then m[k] else 0) + v
  {
    var n := m[k := v];
    SumOverSplit(n, n.Keys, k);
    assert n.Keys - {k} == m.Keys - {k};
    SumOverSame(n, m, m.Keys - {k});
    if k in m {
      SumOverSplit(m, m.Keys, k);
    } else {
      assert m.Keys - {k} == m.Keys;
    }
  }
}
