/**
 * The `children` of a trie node is a JavaScript object used as a dictionary
 * from a one-character key to a child.  This module models it as an ordered
 * association list: `Object.entries` lists the keys in first-insertion order,
 * assigning to an existing key replaces its value in place, and assigning to a
 * new key appends it at the end.
 */
module AssocList {

  datatype Option<T> = None | Some(value: T)

  /** No key occurs twice, as in any JavaScript object. */
  ghost predicate UniqueKeys<K, V>(kvs: seq<(K, V)>) {
    forall i, j :: 0 <= i < j < |kvs| ==> kvs[i].0 != kvs[j].0
  }

  /** The keys of the list, in order. */
  function Keys<K, V>(kvs: seq<(K, V)>): (ks: seq<K>)
    ensures |ks| == |kvs|
    ensures forall i :: 0 <= i < |kvs| ==> ks[i] == kvs[i].0
  {
    seq(|kvs|, i requires 0 <= i < |kvs| => kvs[i].0)
  }

  /** The position of the first entry whose key is `k`, if there is one. */
  function IndexOf<K(==), V>(kvs: seq<(K, V)>, k: K): (r: Option<nat>)
    ensures r.None? <==> forall i :: 0 <= i < |kvs| ==> kvs[i].0 != k
    ensures r.Some? ==> r.value < |kvs| && kvs[r.value].0 == k
    ensures r.Some? ==> forall i :: 0 <= i < r.value ==> kvs[i].0 != k
  {
    if kvs == [] then None
    else if kvs[0].0 == k then Some(0)
    else match IndexOf(kvs[1..], k)
      case None => None
      case Some(i) => Some(i + 1)
  }

  /** A position holding `k` with no `k` before it is the one `IndexOf` finds. */
  lemma IndexOfIs<K, V>(kvs: seq<(K, V)>, k: K, i: nat)
    requires i < |kvs| && kvs[i].0 == k
    requires forall j :: 0 <= j < i ==> kvs[j].0 != k
    ensures IndexOf(kvs, k) == Some(i)
  {
  }

  /** `obj[k]`: the value bound to `k`, or `None` for `undefined`. */
  function Lookup<K(==), V>(kvs: seq<(K, V)>, k: K): (r: Option<V>)
    ensures r.Some? <==> exists i :: 0 <= i < |kvs| && kvs[i].0 == k
    ensures r.Some? ==> exists i :: 0 <= i < |kvs| && kvs[i] == (k, r.value)
  {
    match IndexOf(kvs, k)
    case None => None
    case Some(i) => Some(kvs[i].1)
  }

  /** `obj[k] = v`: replace the value of an existing key where it stands, or append a new key. */
  function Put<K(==), V>(kvs: seq<(K, V)>, k: K, v: V): (r: seq<(K, V)>)
    ensures |r| == if IndexOf(kvs, k).Some? then |kvs| else |kvs| + 1
  {
    match IndexOf(kvs, k)
    case None => kvs + [(k, v)]
    case Some(i) => kvs[i := (k, v)]
  }

  /** After `obj[k] = v`, `obj[k]` is `v` and every other key reads as before. */
  lemma PutLookup<K, V>(kvs: seq<(K, V)>, k: K, v: V, k': K)
    ensures Lookup(Put(kvs, k, v), k') == if k' == k then Some(v) else Lookup(kvs, k')
  {
    var r := Put(kvs, k, v);
    match IndexOf(kvs, k)
    case None =>
      assert r == kvs + [(k, v)];
      if k' == k {
        IndexOfIs(r, k, |kvs|);
      } else {
        assert forall i :: 0 <= i < |r| && r[i].0 == k' ==> i < |kvs| && r[i] == kvs[i];
        match IndexOf(kvs, k')
        case None =>
        case Some(j) =>
          IndexOfIs(r, k', j);
      }
    case Some(i) =>
      assert r == kvs[i := (k, v)];
      if k' == k {
        IndexOfIs(r, k, i);
      } else {
        match IndexOf(kvs, k')
        case None =>
        case Some(j) =>
          IndexOfIs(r, k', j);
      }
  }

  /** `obj[k] = v` keeps every key where it was and adds `k` at the end only if it is new. */
  lemma PutKeys<K, V>(kvs: seq<(K, V)>, k: K, v: V)
    ensures Keys(Put(kvs, k, v)) == if Lookup(kvs, k).Some? then Keys(kvs) else Keys(kvs) + [k]
    ensures UniqueKeys(kvs) ==> UniqueKeys(Put(kvs, k, v))
  {
    match IndexOf(kvs, k)
    case None =>
      assert Keys(Put(kvs, k, v)) == Keys(kvs) + [k];
    case Some(i) =>
      assert Keys(Put(kvs, k, v)) == Keys(kvs);
  }

  /** Each entry of `Put(kvs, k, v)` is an old entry at the same place or the new binding. */
  lemma PutEntries<K, V>(kvs: seq<(K, V)>, k: K, v: V)
    ensures forall i :: 0 <= i < |Put(kvs, k, v)| ==>
      Put(kvs, k, v)[i] == (k, v) || (i < |kvs| && Put(kvs, k, v)[i] == kvs[i])
  {
  }

  /** Binding the same key twice to the same value is the same as binding it once. */
  lemma PutPut<K, V>(kvs: seq<(K, V)>, k: K, v: V)
    ensures Put(Put(kvs, k, v), k, v) == Put(kvs, k, v)
  {
    var r := Put(kvs, k, v);
    match IndexOf(kvs, k)
    case None =>
      IndexOfIs(r, k, |kvs|);
    case Some(i) =>
      IndexOfIs(r, k, i);
  }

  /** The list with each value `a` replaced by `m[a]`, keys and order kept. */
  function MapValues<K, A, B>(kvs: seq<(K, A)>, m: map<A, B>): (r: seq<(K, B)>)
    requires forall i :: 0 <= i < |kvs| ==> kvs[i].1 in m
    ensures |r| == |kvs|
    ensures forall i :: 0 <= i < |kvs| ==> r[i] == (kvs[i].0, m[kvs[i].1])
  {
    seq(|kvs|, i requires 0 <= i < |kvs| => (kvs[i].0, m[kvs[i].1]))
  }

  /** Keys, order and positions survive `MapValues`, so the first `k` is found at the same place. */
  lemma IndexOfMapValues<K, A, B>(kvs: seq<(K, A)>, m: map<A, B>, k: K)
    requires forall i :: 0 <= i < |kvs| ==> kvs[i].1 in m
    ensures IndexOf(MapValues(kvs, m), k) == IndexOf(kvs, k)
  {
    var r := MapValues(kvs, m);
    match IndexOf(kvs, k)
    case None =>
    case Some(i) => IndexOfIs(r, k, i);
  }

  /** Updating `m` at a value that no entry refers to does not change `MapValues`. */
  lemma MapValuesFrame<K, A, B>(kvs: seq<(K, A)>, m: map<A, B>, x: A, v: B)
    requires forall i :: 0 <= i < |kvs| ==> kvs[i].1 in m && kvs[i].1 != x
    ensures MapValues(kvs, m[x := v]) == MapValues(kvs, m)
  {
  }

  /** Updating `m` at a value that exactly entry `j` refers to changes entry `j` only. */
  lemma MapValuesAt<K, A, B>(kvs: seq<(K, A)>, m: map<A, B>, j: nat, v: B)
    requires forall i :: 0 <= i < |kvs| ==> kvs[i].1 in m
    requires j < |kvs|
    requires forall i :: 0 <= i < |kvs| && i != j ==> kvs[i].1 != kvs[j].1
    ensures MapValues(kvs, m[kvs[j].1 := v]) == MapValues(kvs, m)[j := (kvs[j].0, v)]
  {
  }

  /** Appending an entry appends its image. */
  lemma MapValuesAppend<K, A, B>(kvs: seq<(K, A)>, m: map<A, B>, k: K, a: A)
    requires forall i :: 0 <= i < |kvs| ==> kvs[i].1 in m
    requires a in m
    ensures MapValues(kvs + [(k, a)], m) == MapValues(kvs, m) + [(k, m[a])]
  {
  }
}
