/** Ordered association lists: the value-level form of a JavaScript object
    used as a string-keyed map (whose `for … in` order is insertion order for
    non-numeric keys) and of a DOM element's attribute list (where
    `setAttribute` on an existing name replaces the value in place). */
module Assoc {
  import opened Wrappers

  function Keys<K, V>(m: seq<(K, V)>): (ks: seq<K>)
    ensures |ks| == |m|
    ensures forall i :: 0 <= i < |m| ==> ks[i] == m[i].0
  {
    seq(|m|, i requires 0 <= i < |m| => m[i].0)
  }

  function Values<K, V>(m: seq<(K, V)>): (vs: seq<V>)
    ensures |vs| == |m|
    ensures forall i :: 0 <= i < |m| ==> vs[i] == m[i].1
  {
    seq(|m|, i requires 0 <= i < |m| => m[i].1)
  }

  ghost predicate Distinct<T>(s: seq<T>) {
    forall i, j :: 0 <= i < j < |s| ==> s[i] != s[j]
  }

  /** No key occurs twice: what a JavaScript object or an attribute list guarantees. */
  ghost predicate UniqueKeys<K, V>(m: seq<(K, V)>) {
    Distinct(Keys(m))
  }

  /** Position of the first entry under `k`. */
  function IndexOf<K(==), V>(m: seq<(K, V)>, k: K): (i: nat)
    requires k in Keys(m)
    ensures i < |m| && m[i].0 == k
    ensures forall j :: 0 <= j < i ==> m[j].0 != k
  {
    if m[0].0 == k then 0
    else
      assert Keys(m) == [m[0].0] + Keys(m[1..]);
      1 + IndexOf(m[1..], k)
  }

  /** Lookup of the first entry under `k`; `None` plays the part of `undefined`. */
  function Get<K(==), V>(m: seq<(K, V)>, k: K): (r: Option<V>)
    ensures r.Some? <==> k in Keys(m)
    ensures r.Some? ==> (k, r.value) in m
  {
    if k in Keys(m) then Some(m[IndexOf(m, k)].1) else None
  }

  /** Overwriting an entry in place leaves the first position of every other key alone. */
  lemma IndexOfUpdate<K, V>(m: seq<(K, V)>, i: nat, k: K, v: V, k': K)
    requires i < |m| && m[i].0 == k && k' != k && k' in Keys(m)
    ensures k' in Keys(m[i := (k, v)])
    ensures IndexOf(m[i := (k, v)], k') == IndexOf(m, k')
  {
    var r := m[i := (k, v)];
    var j := IndexOf(m, k');
    assert r[j].0 == k';
    assert Keys(r)[j] == k';
  }

  /** Appending a new key leaves the first position of every other key alone. */
  lemma IndexOfAppend<K, V>(m: seq<(K, V)>, k: K, v: V, k': K)
    requires k' in Keys(m)
    ensures k' in Keys(m + [(k, v)])
    ensures IndexOf(m + [(k, v)], k') == IndexOf(m, k')
  {
    var r := m + [(k, v)];
    var j := IndexOf(m, k');
    assert r[j].0 == k';
    assert Keys(r)[j] == k';
  }

  /** Assignment `m[k] = v`: an existing key keeps its position and gets the
      new value, a new key is appended at the end. */
  function Put<K(==,!new), V>(m: seq<(K, V)>, k: K, v: V): (r: seq<(K, V)>)
    ensures Get(r, k) == Some(v)
    ensures forall k' :: k' != k ==> Get(r, k') == Get(m, k')
    ensures k in Keys(m) ==> Keys(r) == Keys(m)
    ensures k !in Keys(m) ==> Keys(r) == Keys(m) + [k]
    ensures k !in Keys(m) ==> r == m + [(k, v)]
    ensures UniqueKeys(m) ==> UniqueKeys(r)
  {
    if k in Keys(m) then
      var i := IndexOf(m, k);
      var r := m[i := (k, v)];
      assert Keys(r) == Keys(m);
      assert forall k' | k' != k && k' in Keys(m) :: IndexOf(r, k') == IndexOf(m, k') by {
        forall k' | k' != k && k' in Keys(m) ensures IndexOf(r, k') == IndexOf(m, k') {
          IndexOfUpdate(m, i, k, v, k');
        }
      }
      assert IndexOf(r, k) == i;
      r
    else
      var r := m + [(k, v)];
      assert Keys(r) == Keys(m) + [k];
      assert forall k' | k' in Keys(m) :: IndexOf(r, k') == IndexOf(m, k') by {
        forall k' | k' in Keys(m) ensures IndexOf(r, k') == IndexOf(m, k') {
          IndexOfAppend(m, k, v, k');
        }
      }
      assert IndexOf(r, k) == |m|;
      r
  }

  /** A `setAttribute` guarded by a condition. */
  function PutIf<K(==,!new), V>(m: seq<(K, V)>, cond: bool, k: K, v: V): (r: seq<(K, V)>)
    ensures Get(r, k) == if cond then Some(v) else Get(m, k)
    ensures forall k' :: k' != k ==> Get(r, k') == Get(m, k')
    ensures UniqueKeys(m) ==> UniqueKeys(r)
  {
    if cond then Put(m, k, v) else m
  }

  /** The value under `k`, or `default` when there is none. */
  function GetOr<K(==), V>(m: seq<(K, V)>, k: K, default: V): (v: V)
    ensures k !in Keys(m) ==> v == default
    ensures k in Keys(m) ==> Get(m, k) == Some(v)
  {
    match Get(m, k)
    case Some(v) => v
    case None => default
  }
}
