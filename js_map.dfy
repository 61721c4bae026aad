/**
 * The JavaScript `Map` that every room keeps for its users (server/index.ts:27):
 * a list of entries in insertion order.  `set` on a present key replaces the
 * value in place, `set` on a new key appends, `delete` removes the entry, and
 * `values()` lists the values in insertion order.
 */
module JsMaps {
  import opened Wrappers

  datatype Entry<K, V> = Entry(key: K, value: V)

  type JsMap<K, V> = seq<Entry<K, V>>

  /** The keys of the map: exactly the keys of its entries. */
  function Keys<K, V>(m: JsMap<K, V>): (ks: set<K>)
    ensures forall i :: 0 <= i < |m| ==> m[i].key in ks
    ensures forall k :: k in ks ==> exists i :: 0 <= i < |m| && m[i].key == k
  {
    if m == [] then {} else {m[0].key} + Keys(m[1..])
  }

  /** No key occurs twice: the shape every JavaScript Map has. */
  predicate DistinctKeys<K(==), V>(m: JsMap<K, V>) {
    m == [] || (m[0].key !in Keys(m[1..]) && DistinctKeys(m[1..]))
  }

  /** `Array.from(map.values())`: the values, oldest entry first. */
  function Values<K, V>(m: JsMap<K, V>): (vs: seq<V>)
    ensures |vs| == |m|
    ensures forall i :: 0 <= i < |m| ==> vs[i] == m[i].value
  {
    if m == [] then [] else [m[0].value] + Values(m[1..])
  }

  /** The position of the first entry with key k, or |m| when there is none. */
  function Find<K(==), V>(m: JsMap<K, V>, k: K): (i: nat)
    ensures i <= |m|
    ensures forall j :: 0 <= j < i ==> m[j].key != k
    ensures i < |m| ==> m[i].key == k
    ensures i < |m| <==> k in Keys(m)
  {
    if m == [] then 0
    else if m[0].key == k then 0
    else 1 + Find(m[1..], k)
  }

  /** `map.get(k)`: the value of the entry with key k. */
  function Get<K(==,!new), V>(m: JsMap<K, V>, k: K): (r: Option<V>)
    ensures r.Some? <==> k in Keys(m)
    ensures r == if Find(m, k) < |m| then Some(m[Find(m, k)].value) else None
  {
    if m == [] then None
    else if m[0].key == k then Some(m[0].value)
    else Get(m[1..], k)
  }

  /** `map.size`: the number of entries, which is the number of keys. */
  function Size<K(==), V>(m: JsMap<K, V>): (n: nat)
    ensures DistinctKeys(m) ==> n == |Keys(m)|
  {
    DistinctKeyCount(m);
    |m|
  }

  /** Two maps whose entries have the same keys, position by position, find every key at the same place. */
  lemma {:induction false} FindSameKeys<K, V>(m: JsMap<K, V>, m': JsMap<K, V>, k: K)
    requires |m| == |m'| && forall i :: 0 <= i < |m| ==> m[i].key == m'[i].key
    ensures Find(m, k) == Find(m', k)
  {
    if m != [] {
      FindSameKeys(m[1..], m'[1..], k);
    }
  }

  /** Two maps whose entries have the same keys, position by position, have the same keys. */
  lemma {:induction false} KeysSameKeys<K, V>(m: JsMap<K, V>, m': JsMap<K, V>)
    requires |m| == |m'| && forall i :: 0 <= i < |m| ==> m[i].key == m'[i].key
    ensures Keys(m) == Keys(m')
  {
    if m != [] {
      KeysSameKeys(m[1..], m'[1..]);
    }
  }

  /** Appending an entry adds its key. */
  lemma {:induction false} KeysAppend<K, V>(m: JsMap<K, V>, e: Entry<K, V>)
    ensures Keys(m + [e]) == Keys(m) + {e.key}
  {
    if m != [] {
      assert (m + [e])[1..] == m[1..] + [e];
      KeysAppend(m[1..], e);
    }
  }

  /** Appending an entry does not move the first occurrence of a key already present. */
  lemma {:induction false} FindAppend<K, V>(m: JsMap<K, V>, e: Entry<K, V>, k: K)
    ensures Find(m + [e], k) == if k in Keys(m) then Find(m, k) else if e.key == k then |m| else |m| + 1
  {
    if m != [] {
      assert (m + [e])[1..] == m[1..] + [e];
      FindAppend(m[1..], e, k);
    }
  }

  /** `map.set(k, v)`: a present key keeps its position and takes the new value, a new key is appended. */
  function Set<K(==,!new), V>(m: JsMap<K, V>, k: K, v: V): (r: JsMap<K, V>)
    ensures k in Keys(m) ==> r == m[Find(m, k) := Entry(k, v)]
    ensures k !in Keys(m) ==> r == m + [Entry(k, v)]
    ensures Keys(r) == Keys(m) + {k}
    ensures Get(r, k) == Some(v)
    ensures forall k' :: k' != k ==> Get(r, k') == Get(m, k')
    ensures |r| == if k in Keys(m) then |m| else |m| + 1
    ensures DistinctKeys(m) ==> DistinctKeys(r)
  {
    var i := Find(m, k);
    if i < |m| then
      UpdateFacts(m, k, v);
      m[i := Entry(k, v)]
    else
      AppendFacts(m, k, v);
      m + [Entry(k, v)]
  }

  /** Giving a present key a new value where it stands keeps every key and changes only that lookup. */
  lemma UpdateFacts<K(!new), V>(m: JsMap<K, V>, k: K, v: V)
    requires k in Keys(m)
    ensures var r := m[Find(m, k) := Entry(k, v)];
      && Keys(r) == Keys(m)
      && Get(r, k) == Some(v)
      && (forall k' :: k' != k ==> Get(r, k') == Get(m, k'))
      && (DistinctKeys(m) ==> DistinctKeys(r))
  {
    var r := m[Find(m, k) := Entry(k, v)];
    KeysSameKeys(r, m);
    forall k' {
      FindSameKeys(r, m, k');
    }
    SetKeepsDistinct(m, k, v);
  }

  /** Appending a new key adds it, keeps every other lookup and keeps the keys distinct. */
  lemma AppendFacts<K(!new), V>(m: JsMap<K, V>, k: K, v: V)
    requires k !in Keys(m)
    ensures var r := m + [Entry(k, v)];
      && Keys(r) == Keys(m) + {k}
      && Get(r, k) == Some(v)
      && (forall k' :: k' != k ==> Get(r, k') == Get(m, k'))
      && (DistinctKeys(m) ==> DistinctKeys(r))
  {
    var r := m + [Entry(k, v)];
    KeysAppend(m, Entry(k, v));
    forall k' {
      FindAppend(m, Entry(k, v), k');
    }
    SetKeepsDistinct(m, k, v);
  }

  /** Replacing the value of a present key, or appending a new one, keeps the keys distinct. */
  lemma {:induction false} SetKeepsDistinct<K, V>(m: JsMap<K, V>, k: K, v: V)
    ensures DistinctKeys(m) && k in Keys(m) ==> DistinctKeys(m[Find(m, k) := Entry(k, v)])
    ensures DistinctKeys(m) && k !in Keys(m) ==> DistinctKeys(m + [Entry(k, v)])
  {
    if m != [] {
      SetKeepsDistinct(m[1..], k, v);
      if m[0].key == k {
        assert m[Find(m, k) := Entry(k, v)][1..] == m[1..];
      } else if k in Keys(m) {
        assert m[Find(m, k) := Entry(k, v)][1..] == m[1..][Find(m[1..], k) := Entry(k, v)];
      } else {
        assert (m + [Entry(k, v)])[1..] == m[1..] + [Entry(k, v)];
      }
    }
  }

  /**
   * r is m after `delete(k)`: k is gone, every other key keeps its value,
   * and with distinct keys exactly the entry of k is cut out, the others
   * keeping their order.
   */
  ghost predicate Deleted<K(!new), V>(m: JsMap<K, V>, k: K, r: JsMap<K, V>) {
    && Keys(r) == Keys(m) - {k}
    && Get(r, k) == None
    && (forall k' :: k' != k ==> Get(r, k') == Get(m, k'))
    && (k !in Keys(m) ==> r == m)
    && (DistinctKeys(m) ==> DistinctKeys(r))
    && (DistinctKeys(m) ==> |r| == if k in Keys(m) then |m| - 1 else |m|)
    && (DistinctKeys(m) && k in Keys(m) ==> r == m[..Find(m, k)] + m[Find(m, k) + 1..])
  }

  /** `map.delete(k)`. */
  function Delete<K(==,!new), V>(m: JsMap<K, V>, k: K): (r: JsMap<K, V>)
    ensures Deleted(m, k, r)
  {
    if m == [] then []
    else
      var t := Delete(m[1..], k);
      if m[0].key == k then
        DeletedHead(m, k, t);
        t
      else
        DeletedCons(m, k, t);
        [m[0]] + t
  }

  /** Deleting the key of the first entry: the rest after the delete. */
  lemma DeletedHead<K(!new), V>(m: JsMap<K, V>, k: K, t: JsMap<K, V>)
    requires m != [] && m[0].key == k && Deleted(m[1..], k, t)
    ensures Deleted(m, k, t)
  {
    assert m == [m[0]] + m[1..];
    ConsFacts(m[0], m[1..]);
    if DistinctKeys(m) {
      assert t == m[1..];
    }
  }

  /** Deleting another key: the first entry stays in front of the rest after the delete. */
  lemma DeletedCons<K(!new), V>(m: JsMap<K, V>, k: K, t: JsMap<K, V>)
    requires m != [] && m[0].key != k && Deleted(m[1..], k, t)
    ensures Deleted(m, k, [m[0]] + t)
  {
    DeletedConsLookups(m, k, t);
    DeletedConsOrder(m, k, t);
  }

  /** The keys and lookups half of DeletedCons. */
  lemma DeletedConsLookups<K(!new), V>(m: JsMap<K, V>, k: K, t: JsMap<K, V>)
    requires m != [] && m[0].key != k && Deleted(m[1..], k, t)
    ensures var r := [m[0]] + t;
      && Keys(r) == Keys(m) - {k}
      && Get(r, k) == None
      && (forall k' :: k' != k ==> Get(r, k') == Get(m, k'))
      && (k !in Keys(m) ==> r == m)
  {
    assert m == [m[0]] + m[1..];
    ConsFacts(m[0], m[1..]);
    ConsFacts(m[0], t);
  }

  /** The distinctness and order half of DeletedCons. */
  lemma DeletedConsOrder<K(!new), V>(m: JsMap<K, V>, k: K, t: JsMap<K, V>)
    requires m != [] && m[0].key != k && Deleted(m[1..], k, t)
    ensures var r := [m[0]] + t;
      && (DistinctKeys(m) ==> DistinctKeys(r))
      && (DistinctKeys(m) ==> |r| == if k in Keys(m) then |m| - 1 else |m|)
      && (DistinctKeys(m) && k in Keys(m) ==> r == m[..Find(m, k)] + m[Find(m, k) + 1..])
  {
    assert m == [m[0]] + m[1..];
    ConsFacts(m[0], m[1..]);
    ConsFacts(m[0], t);
    ConsSplice(m[0], m[1..], Find(m[1..], k));
  }

  /** What putting an entry in front of a map does to its keys, lookups and distinctness. */
  lemma ConsFacts<K(!new), V>(e: Entry<K, V>, t: JsMap<K, V>)
    ensures ([e] + t)[1..] == t
    ensures Keys([e] + t) == {e.key} + Keys(t)
    ensures forall k :: Find([e] + t, k) == if e.key == k then 0 else 1 + Find(t, k)
    ensures forall k :: Get([e] + t, k) == if e.key == k then Some(e.value) else Get(t, k)
    ensures DistinctKeys([e] + t) <==> e.key !in Keys(t) && DistinctKeys(t)
  {
    assert ([e] + t)[1..] == t;
  }

  /** Removing position i + 1 behind a first element is removing position i of the rest. */
  lemma ConsSplice<T>(e: T, s: seq<T>, i: nat)
    requires i <= |s|
    ensures i < |s| ==> [e] + (s[..i] + s[i + 1..]) == ([e] + s)[..i + 1] + ([e] + s)[i + 2..]
  {
  }

  /** With distinct keys there are exactly as many keys as entries. */
  lemma {:induction false} DistinctKeyCount<K, V>(m: JsMap<K, V>)
    ensures DistinctKeys(m) ==> |Keys(m)| == |m|
  {
    if m != [] {
      DistinctKeyCount(m[1..]);
    }
  }
}
