/** Ruby's `Hash`, which keeps its keys in insertion order, as a sequence of
    key/value pairs. */
module OrderedHash {
  import opened Text

  function Keys<K, V>(h: seq<(K, V)>): (ks: seq<K>)
    ensures |ks| == |h|
    ensures forall p :: 0 <= p < |h| ==> ks[p] == h[p].0
  {
    if h == [] then [] else [h[0].0] + Keys(h[1..])
  }

  /** No key occurs twice: what every Ruby hash satisfies. */
  predicate IsHash<K(==), V>(h: seq<(K, V)>)
  {
    forall p, q :: 0 <= p < q < |h| ==> h[p].0 != h[q].0
  }

  /** Position of `k` among the keys. */
  function Position<K(==), V>(h: seq<(K, V)>, k: K): (r: Option<nat>)
    ensures r.None? <==> (forall p :: 0 <= p < |h| ==> h[p].0 != k)
    ensures r.Some? ==> r.value < |h| && h[r.value].0 == k &&
                        forall p :: 0 <= p < r.value ==> h[p].0 != k
  {
    if h == [] then None
    else if h[0].0 == k then Some(0)
    else match Position(h[1..], k)
      case None => None
      case Some(p) => Some(p + 1)
  }

  /** `h[k]`: the value stored under `k`, `None` when `k` is absent. */
  function Lookup<K(==), V>(h: seq<(K, V)>, k: K): (r: Option<V>)
    ensures r.None? <==> (forall p :: 0 <= p < |h| ==> h[p].0 != k)
  {
    match Position(h, k)
    case None => None
    case Some(p) => Some(h[p].1)
  }

  /** In a hash a key is found at the one place it is stored. */
  lemma LookupAt<K, V>(h: seq<(K, V)>, p: nat)
    requires IsHash(h) && p < |h|
    ensures Lookup(h, h[p].0) == Some(h[p].1)
  {
    var q := Position(h, h[p].0).value;
    assert h[q].0 == h[p].0;
  }

  /** `h[k] = v`: an existing key keeps its place and takes the new value; a
      new key is appended. */
  function Store<K(==), V>(h: seq<(K, V)>, k: K, v: V): (r: seq<(K, V)>)
    ensures Position(h, k).Some? ==> r == h[Position(h, k).value := (k, v)]
    ensures Position(h, k).None? ==> r == h + [(k, v)]
  {
    match Position(h, k)
    case None => h + [(k, v)]
    case Some(p) => h[p := (k, v)]
  }

  lemma StoreKeepsHash<K, V>(h: seq<(K, V)>, k: K, v: V)
    requires IsHash(h)
    ensures IsHash(Store(h, k, v))
    ensures Lookup(Store(h, k, v), k) == Some(v)
    ensures forall p :: 0 <= p < |h| ==> Store(h, k, v)[p].0 == h[p].0
    ensures |Store(h, k, v)| == if Position(h, k).Some? then |h| else |h| + 1
  {
    var r := Store(h, k, v);
    match Position(h, k)
    case None =>
      assert r[|h|].0 == k;
    case Some(p) =>
      assert r[p].0 == k;
  }

  /** `h[k] = v` leaves the value under every other key as it was. */
  lemma StoreOther<K, V>(h: seq<(K, V)>, k: K, v: V, k': K)
    requires k' != k
    ensures Lookup(Store(h, k, v), k') == Lookup(h, k')
  {
    var r := Store(h, k, v);
    assert forall p :: 0 <= p < |h| ==> r[p].0 == h[p].0 || r[p].0 == k;
    match Position(h, k')
    case None =>
      assert forall p :: 0 <= p < |r| ==> r[p].0 != k';
    case Some(q) =>
      assert r[q] == h[q];
      assert Position(r, k') == Some(q);
  }

  /** `h[k] = v` keeps the key order, and a new key goes last. */
  lemma StoreKeys<K, V>(h: seq<(K, V)>, k: K, v: V)
    ensures Keys(Store(h, k, v)) == if Position(h, k).Some? then Keys(h) else Keys(h) + [k]
  {
    var r := Store(h, k, v);
    if Position(h, k).Some? {
      assert forall p :: 0 <= p < |h| ==> r[p].0 == h[p].0;
    } else {
      assert forall p :: 0 <= p < |h| ==> r[p].0 == h[p].0;
      assert r[|h|].0 == k;
    }
  }
}
