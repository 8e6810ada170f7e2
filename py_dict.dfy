/** Python's `dict`: entries kept in insertion order, assigning to an
    existing key replaces its value in place, a new key goes to the end. */
module PyDict {
  import opened Common

  datatype Dict<K(==, !new), V> = Dict(entries: seq<(K, V)>)

  /** No key occurs twice. */
  predicate Valid<K(==, !new), V>(d: Dict<K, V>)
  {
    forall i, k :: 0 <= i < k < |d.entries| ==> d.entries[i].0 != d.entries[k].0
  }

  function Empty<K(==, !new), V>(): (d: Dict<K, V>)
    ensures Valid(d)
  {
    Dict([])
  }

  /** `d.keys()` in iteration order. */
  function Keys<K(==, !new), V>(d: Dict<K, V>): (ks: seq<K>)
  {
    seq(|d.entries|, i requires 0 <= i < |d.entries| => d.entries[i].0)
  }

  /** The position of the first entry with key `k`. */
  function Find<K(==, !new), V>(es: seq<(K, V)>, k: K): (r: Option<nat>)
    ensures r.None? <==> forall i :: 0 <= i < |es| ==> es[i].0 != k
    ensures r.Some? ==> r.value < |es| && es[r.value].0 == k && forall i :: 0 <= i < r.value ==> es[i].0 != k
  {
    if es == [] then None
    else if es[0].0 == k then Some(0)
    else
      assert forall i :: 1 <= i < |es| ==> es[i] == es[1..][i - 1];
      match Find(es[1..], k)
      case None => None
      case Some(i) => Some(i + 1)
  }

  /** `d.get(k)`: the value stored under `k`, or None. */
  function Get<K(==, !new), V>(d: Dict<K, V>, k: K): (r: Option<V>)
    ensures r.None? <==> k !in Keys(d)
    ensures r.Some? ==> exists i :: 0 <= i < |d.entries| && d.entries[i] == (k, r.value)
  {
    match Find(d.entries, k)
    case None => None
    case Some(i) =>
      assert Keys(d)[i] == k;
      Some(d.entries[i].1)
  }

  /** `d[k] = v`. */
  function Set<K(==, !new), V>(d: Dict<K, V>, k: K, v: V): (r: Dict<K, V>)
    ensures Valid(d) ==> Valid(r)
    ensures forall k' :: k' != k ==> Get(r, k') == Get(d, k')
    ensures k in Keys(d) ==> Keys(r) == Keys(d)
    ensures k !in Keys(d) ==> Keys(r) == Keys(d) + [k]
  {
    match Find(d.entries, k)
    case None =>
      var r := Dict(d.entries + [(k, v)]);
      forall k' | k' != k ensures Get(r, k') == Get(d, k') {
        FindAppend(d.entries, (k, v), k');
      }
      assert Keys(r) == Keys(d) + [k];
      r
    case Some(i) =>
      var r := Dict(d.entries[i := (k, v)]);
      forall k' | k' != k ensures Get(r, k') == Get(d, k') {
        FindReplace(d.entries, i, v, k');
      }
      assert Keys(d)[i] == k;
      assert Keys(r) == Keys(d);
      r
  }

  /** After `d[k] = v`, `d.get(k)` is `v`. */
  lemma GetSet<K(!new), V>(d: Dict<K, V>, k: K, v: V)
    ensures Get(Set(d, k, v), k) == Some(v)
  {
    match Find(d.entries, k)
    case None => FindAppend(d.entries, (k, v), k);
    case Some(i) => FindReplace(d.entries, i, v, k);
  }

  /** Appending an entry leaves every earlier first occurrence in place. */
  lemma {:induction false} FindAppend<K(!new), V>(es: seq<(K, V)>, e: (K, V), k: K)
    ensures Find(es + [e], k) == if Find(es, k).Some? then Find(es, k) else if k == e.0 then Some(|es|) else None
  {
    if es != [] {
      assert (es + [e])[0] == es[0];
      assert (es + [e])[1..] == es[1..] + [e];
      FindAppend(es[1..], e, k);
    }
  }

  /** Replacing the value of an entry moves no key. */
  lemma {:induction false} FindReplace<K(!new), V>(es: seq<(K, V)>, i: nat, v: V, k: K)
    requires i < |es|
    ensures Find(es[i := (es[i].0, v)], k) == Find(es, k)
  {
    var s := es[i := (es[i].0, v)];
    assert s[0].0 == es[0].0;
    if i > 0 {
      assert s[1..] == es[1..][i - 1 := (es[i].0, v)];
      FindReplace(es[1..], i - 1, v, k);
    } else {
      assert s[1..] == es[1..];
    }
  }
}
