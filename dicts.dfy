/**
 * Python dictionaries whose iteration order matters, as sequences of key/value pairs
 * in insertion order.
 */
module Dicts {
  import opened Wrappers

  function KeySet<K(==), V>(d: seq<(K, V)>): (ks: set<K>)
    ensures forall i :: 0 <= i < |d| ==> d[i].0 in ks
    ensures forall k :: k in ks ==> exists i :: 0 <= i < |d| && d[i].0 == k
  {
    set i | 0 <= i < |d| :: d[i].0
  }

  /** A dictionary never holds the same key twice. */
  predicate DistinctKeys<K(==), V>(d: seq<(K, V)>)
  {
    forall i, j :: 0 <= i < j < |d| ==> d[i].0 != d[j].0
  }

  /** `d[k]`: the value stored under `k`, or None for a missing key (Python's KeyError). */
  function Get<K(==), V>(d: seq<(K, V)>, k: K): (r: Option<V>)
    ensures r.Some? <==> k in KeySet(d)
    ensures r.Some? ==> exists i :: 0 <= i < |d| && d[i].0 == k && d[i].1 == r.value
  {
    if d == [] then None
    else if d[0].0 == k then Some(d[0].1)
    else
      var r := Get(d[1..], k);
      assert r.Some? ==> d[1..][0..] == d[1..];
      r
  }

  /** In a dictionary, looking up the key stored at a position yields the value stored there. */
  lemma {:induction false} GetAt<K, V>(d: seq<(K, V)>, i: int)
    requires DistinctKeys(d)
    requires 0 <= i < |d|
    ensures Get(d, d[i].0) == Some(d[i].1)
  {
    if i > 0 {
      GetAt(d[1..], i - 1);
    }
  }

  lemma KeySetConcat<K, V>(a: seq<(K, V)>, b: seq<(K, V)>)
    ensures KeySet(a + b) == KeySet(a) + KeySet(b)
  {
    forall k | k in KeySet(a + b) ensures k in KeySet(a) + KeySet(b) {
      var i :| 0 <= i < |a + b| && (a + b)[i].0 == k;
      if i < |a| { assert a[i].0 == k; } else { assert b[i - |a|].0 == k; }
    }
    forall k | k in KeySet(a) ensures k in KeySet(a + b) {
      var i :| 0 <= i < |a| && a[i].0 == k;
      assert (a + b)[i].0 == k;
    }
    forall k | k in KeySet(b) ensures k in KeySet(a + b) {
      var i :| 0 <= i < |b| && b[i].0 == k;
      assert (a + b)[|a| + i].0 == k;
    }
  }

  lemma KeySetSingleton<K, V>(p: (K, V))
    ensures KeySet([p]) == {p.0}
  {
    assert [p][0].0 == p.0;
  }

  lemma KeySetSnoc<K, V>(a: seq<(K, V)>, p: (K, V))
    ensures KeySet(a + [p]) == KeySet(a) + {p.0}
  {
    KeySetConcat(a, [p]);
    KeySetSingleton(p);
  }

  /** `d[k] = v`: the value of an existing key is replaced where it stands; a new key is appended. */
  function Assign<K(==), V>(d: seq<(K, V)>, k: K, v: V): (r: seq<(K, V)>)
    ensures |r| == |d| || |r| == |d| + 1
    ensures KeySet(r) == KeySet(d) + {k}
  {
    if d == [] then KeySetSingleton((k, v)); [(k, v)]
    else
      assert d == [d[0]] + d[1..];
      KeySetSingleton(d[0]);
      KeySetConcat([d[0]], d[1..]);
      if d[0].0 == k then
        KeySetConcat([(k, v)], d[1..]);
        KeySetSingleton((k, v));
        [(k, v)] + d[1..]
      else
        var rest := Assign(d[1..], k, v);
        KeySetConcat([d[0]], rest);
        [d[0]] + rest
  }

  /** After `d[k] = v`, `k` holds `v` and every other key what it held before. */
  lemma {:induction false} AssignGet<K, V>(d: seq<(K, V)>, k: K, v: V, k': K)
    ensures Get(Assign(d, k, v), k') == if k' == k then Some(v) else Get(d, k')
  {
    if d != [] && d[0].0 != k {
      var r := Assign(d, k, v);
      assert r[1..] == Assign(d[1..], k, v);
      AssignGet(d[1..], k, v, k');
    }
  }

  lemma DistinctCons<K, V>(x: (K, V), t: seq<(K, V)>)
    requires DistinctKeys(t) && x.0 !in KeySet(t)
    ensures DistinctKeys([x] + t)
  {
    forall i, j | 0 <= i < j < |[x] + t| ensures ([x] + t)[i].0 != ([x] + t)[j].0 {
      if i == 0 {
        assert ([x] + t)[j] == t[j - 1];
      } else {
        assert ([x] + t)[i] == t[i - 1] && ([x] + t)[j] == t[j - 1];
      }
    }
  }

  lemma DistinctTail<K, V>(d: seq<(K, V)>)
    requires DistinctKeys(d) && d != []
    ensures DistinctKeys(d[1..]) && d[0].0 !in KeySet(d[1..])
  {
    forall i | 0 <= i < |d[1..]| ensures d[1..][i].0 != d[0].0 {
      assert d[1..][i] == d[i + 1];
    }
  }

  /** Assigning to a dictionary keeps its keys distinct. */
  lemma {:induction false} AssignDistinct<K, V>(d: seq<(K, V)>, k: K, v: V)
    requires DistinctKeys(d)
    ensures DistinctKeys(Assign(d, k, v))
  {
    if d != [] {
      DistinctTail(d);
      if d[0].0 == k {
        DistinctCons((k, v), d[1..]);
      } else {
        AssignDistinct(d[1..], k, v);
        DistinctCons(d[0], Assign(d[1..], k, v));
      }
    }
  }

  /** A dictionary built by a comprehension over `pairs`: each key once, in order of first occurrence. */
  function DictOf<K(==), V>(pairs: seq<(K, V)>): (d: seq<(K, V)>)
    ensures DistinctKeys(d)
    ensures KeySet(d) == KeySet(pairs)
  {
    if pairs == [] then []
    else
      var front := pairs[..|pairs| - 1];
      assert pairs == front + [pairs[|pairs| - 1]];
      KeySetConcat(front, [pairs[|pairs| - 1]]);
      AssignDistinct(DictOf(front), pairs[|pairs| - 1].0, pairs[|pairs| - 1].1);
      Assign(DictOf(front), pairs[|pairs| - 1].0, pairs[|pairs| - 1].1)
  }

  /** In a dictionary built by a comprehension, each key holds the value of its last occurrence. */
  lemma {:induction false} DictOfLast<K, V>(pairs: seq<(K, V)>, i: int)
    requires 0 <= i < |pairs|
    requires forall j :: i < j < |pairs| ==> pairs[j].0 != pairs[i].0
    ensures Get(DictOf(pairs), pairs[i].0) == Some(pairs[i].1)
  {
    if i < |pairs| - 1 {
      var front := pairs[..|pairs| - 1];
      assert front[i] == pairs[i];
      DictOfLast(front, i);
      AssignGet(DictOf(front), pairs[|pairs| - 1].0, pairs[|pairs| - 1].1, pairs[i].0);
    } else {
      AssignGet(DictOf(pairs[..i]), pairs[i].0, pairs[i].1, pairs[i].0);
    }
  }

  /** Every entry of `d[k] = v` is an entry of `d` or the new pair. */
  lemma {:induction false} AssignEntries<K, V>(d: seq<(K, V)>, k: K, v: V, i: int)
    requires 0 <= i < |Assign(d, k, v)|
    ensures Assign(d, k, v)[i] == (k, v) || Assign(d, k, v)[i] in d
  {
    if d != [] && d[0].0 != k && i > 0 {
      var r := Assign(d, k, v);
      assert r[1..] == Assign(d[1..], k, v);
      AssignEntries(d[1..], k, v, i - 1);
      assert r[i] == r[1..][i - 1];
    } else if d != [] && i > 0 {
      assert Assign(d, k, v)[i] == d[i];
    }
  }

  /** Every entry of a dictionary built by a comprehension is one of the pairs it was built from. */
  lemma {:induction false} DictOfEntries<K, V>(pairs: seq<(K, V)>, i: int)
    requires 0 <= i < |DictOf(pairs)|
    ensures DictOf(pairs)[i] in pairs
  {
    var front := pairs[..|pairs| - 1];
    var last := pairs[|pairs| - 1];
    AssignEntries(DictOf(front), last.0, last.1, i);
    if DictOf(pairs)[i] != last {
      var j :| 0 <= j < |DictOf(front)| && DictOf(front)[j] == DictOf(pairs)[i];
      DictOfEntries(front, j);
      assert forall x :: x in front ==> x in pairs;
    }
  }

  /** A comprehension-built dictionary holds only pairs it was built from. */
  lemma DictOfWithin<K, V>(pairs: seq<(K, V)>)
    ensures forall i :: 0 <= i < |DictOf(pairs)| ==> DictOf(pairs)[i] in pairs
  {
    forall i | 0 <= i < |DictOf(pairs)| ensures DictOf(pairs)[i] in pairs {
      DictOfEntries(pairs, i);
    }
  }
}
