/**
 * PHP arrays with string keys, as the index service builds them: entries in
 * insertion order, every key at most once. Assigning to a present key
 * replaces its value in place; assigning to a new key appends an entry.
 */
module OrderedMaps {
  import opened Wrappers

  /** The keys of `m`, in entry order. */
  function Keys<K, V>(m: seq<(K, V)>): (r: seq<K>)
    ensures |r| == |m|
    ensures forall i :: 0 <= i < |m| ==> r[i] == m[i].0
  {
    if m == [] then [] else [m[0].0] + Keys(m[1..])
  }

  predicate DistinctKeys<K(==), V>(m: seq<(K, V)>)
  {
    forall i, j :: 0 <= i < j < |m| ==> m[i].0 != m[j].0
  }

  /** A PHP array: an ordered list of entries with pairwise different keys. */
  type OrderedMap<K(==), V> = m: seq<(K, V)> | DistinctKeys(m) witness []

  /** `$m[$k] ?? null`. */
  function Get<K(==), V>(m: seq<(K, V)>, k: K): (r: Option<V>)
    ensures r.Some? <==> k in Keys(m)
    ensures r.Some? ==> exists i :: 0 <= i < |m| && m[i] == (k, r.value)
  {
    if m == [] then None
    else if m[0].0 == k then Some(m[0].1)
    else Get(m[1..], k)
  }

  /** `$m[$k] = $v`. */
  function Assign<K(==,!new), V>(m: OrderedMap<K, V>, k: K, v: V): (r: OrderedMap<K, V>)
    ensures Get(r, k) == Some(v)
    ensures forall k' :: k' != k ==> Get(r, k') == Get(m, k')
    ensures forall k' :: k' in Keys(r) <==> k' in Keys(m) || k' == k
  {
    if m == [] then [(k, v)]
    else
      var tail: OrderedMap<K, V> := m[1..];
      HeadKeyIsNew(m);
      if m[0].0 == k then
        ConsDistinct((k, v), tail);
        [(k, v)] + tail
      else
        var rest := Assign(tail, k, v);
        ConsDistinct(m[0], rest);
        [m[0]] + rest
  }

  lemma HeadKeyIsNew<K, V>(m: seq<(K, V)>)
    requires DistinctKeys(m) && m != []
    ensures m[0].0 !in Keys(m[1..])
  {
  }

  lemma ConsDistinct<K, V>(x: (K, V), m: seq<(K, V)>)
    requires DistinctKeys(m) && x.0 !in Keys(m)
    ensures DistinctKeys([x] + m)
  {
    forall i, j | 0 <= i < j < |[x] + m| ensures ([x] + m)[i].0 != ([x] + m)[j].0 {
      assert ([x] + m)[j] == m[j - 1];
      if i == 0 {
        assert Keys(m)[j - 1] == m[j - 1].0;
      } else {
        assert ([x] + m)[i] == m[i - 1];
      }
    }
  }

  /** `$m[$k][] = $x`: appends `x` to the list stored under `k`, creating it when `k` is new. */
  function AppendAt<K(==,!new), X>(m: OrderedMap<K, seq<X>>, k: K, x: X): (r: OrderedMap<K, seq<X>>)
    ensures Get(r, k) == Some(if Get(m, k).Some? then Get(m, k).value + [x] else [x])
    ensures forall k' :: k' != k ==> Get(r, k') == Get(m, k')
  {
    match Get(m, k)
    case None => Assign(m, k, [x])
    case Some(xs) => Assign(m, k, xs + [x])
  }

  /** The list under `k`, empty when `k` is absent. */
  function ListAt<K(==), X>(m: seq<(K, seq<X>)>, k: K): seq<X>
  {
    match Get(m, k)
    case None => []
    case Some(xs) => xs
  }

  /** Nested iteration `foreach ($m as $k => $xs) foreach ($xs as $x)` as one list of pairs. */
  function Flatten<K, X>(m: seq<(K, seq<X>)>): seq<(K, X)>
  {
    if m == [] then [] else Pairs(m[0].0, m[0].1) + Flatten(m[1..])
  }

  function Pairs<K, X>(k: K, xs: seq<X>): (r: seq<(K, X)>)
    ensures |r| == |xs| && forall i :: 0 <= i < |xs| ==> r[i] == (k, xs[i])
  {
    if xs == [] then [] else [(k, xs[0])] + Pairs(k, xs[1..])
  }

  /** A pair is visited by the nested iteration exactly when its element is in the list under its key. */
  lemma {:induction false} FlattenMembers<K, X>(m: OrderedMap<K, seq<X>>, k: K, x: X)
    ensures (k, x) in Flatten(m) <==> x in ListAt(m, k)
  {
    if m != [] {
      var tail: OrderedMap<K, seq<X>> := m[1..];
      FlattenMembers(tail, k, x);
      assert Flatten(m) == Pairs(m[0].0, m[0].1) + Flatten(tail);
      var inHead := (k, x) in Pairs(m[0].0, m[0].1);
      assert inHead <==> k == m[0].0 && x in m[0].1 by {
        if inHead {
          var i :| 0 <= i < |m[0].1| && Pairs(m[0].0, m[0].1)[i] == (k, x);
        }
        if k == m[0].0 && x in m[0].1 {
          var i :| 0 <= i < |m[0].1| && m[0].1[i] == x;
          assert Pairs(m[0].0, m[0].1)[i] == (k, x);
        }
      }
      if k == m[0].0 {
        assert k !in Keys(tail) by {
          forall j | 0 <= j < |tail| ensures tail[j].0 != k {
            assert tail[j] == m[j + 1];
          }
        }
        assert ListAt(tail, k) == [];
      }
    }
  }

  /** Looking up in a map extended by one entry whose key is new. */
  lemma {:induction false} GetSnoc<K, V>(m: seq<(K, V)>, k: K, v: V, x: K)
    requires k !in Keys(m)
    ensures Get(m + [(k, v)], x) == if x == k then Some(v) else Get(m, x)
  {
    if m != [] {
      assert (m + [(k, v)])[1..] == m[1..] + [(k, v)];
      GetSnoc(m[1..], k, v, x);
    }
  }

  /** The nested iteration over a map extended by one entry ends with that entry's pairs. */
  lemma {:induction false} FlattenSnoc<K, X>(m: seq<(K, seq<X>)>, k: K, xs: seq<X>)
    ensures Flatten(m + [(k, xs)]) == Flatten(m) + Pairs(k, xs)
  {
    if m == [] {
      assert [(k, xs)][1..] == [];
      assert Flatten([(k, xs)]) == Pairs(k, xs) + [];
    } else {
      assert (m + [(k, xs)])[1..] == m[1..] + [(k, xs)];
      FlattenSnoc(m[1..], k, xs);
    }
  }

  lemma PairsSnoc<K, X>(k: K, xs: seq<X>, x: X)
    ensures Pairs(k, xs + [x]) == Pairs(k, xs) + [(k, x)]
  {
  }

  /** The keys of a prefix of an ordered map; the key just after the prefix is not among them. */
  lemma PrefixKeys<K, V>(m: OrderedMap<K, V>, i: nat)
    requires i < |m|
    ensures DistinctKeys(m[..i]) && m[..i + 1] == m[..i] + [m[i]]
    ensures m[i].0 !in Keys(m[..i])
  {
  }

  lemma ListAtAppendAt<K(!new), X>(m: OrderedMap<K, seq<X>>, k: K, x: X, p: K)
    ensures ListAt(AppendAt(m, k, x), p) == if p == k then ListAt(m, p) + [x] else ListAt(m, p)
  {
  }

  lemma ListAtAssign<K(!new), X>(m: OrderedMap<K, seq<X>>, k: K, xs: seq<X>, p: K)
    ensures ListAt(Assign(m, k, xs), p) == if p == k then xs else ListAt(m, p)
  {
  }
}
