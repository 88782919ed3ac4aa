/**
 * The backing Hazelcast `IMap<byte[], StaticBuffer>`, reduced to the
 * `java.util.concurrent.ConcurrentMap` primitives the cache store uses.
 * Each primitive is one sequential step on a finite map whose keys and
 * values are compared byte for byte.
 */
module ConcurrentMap {
  import opened Wrappers

  /** A serialized key or a stored value: an immutable byte string. */
  type Bytes = seq<bv8>

  /** The state of the backing map. */
  type Store = map<Bytes, Bytes>

  /** No element occurs twice. */
  predicate Distinct(s: seq<Bytes>) {
    forall i, j :: 0 <= i < j < |s| ==> s[i] != s[j]
  }

  /** `m` and `m'` bind every key other than `k` identically. */
  ghost predicate AgreeExcept(m: Store, m': Store, k: Bytes) {
    forall k' :: k' != k ==> (k' in m <==> k' in m') && (k' in m ==> m[k'] == m'[k'])
  }

  /** `get(k)`: the value bound to `k`, or null. */
  function Get(m: Store, k: Bytes): (r: Option<Bytes>)
    ensures r.Some? <==> k in m
    ensures r.Some? ==> r.value == m[k]
  {
    if k in m then Some(m[k]) else None
  }

  /** What `putIfAbsent` returns, together with the map it leaves behind. */
  datatype PutResult = PutResult(previous: Option<Bytes>, after: Store)

  /**
   * `putIfAbsent(k, v)`: binds `k` to `v` only if `k` is unbound; returns
   * the value `k` was bound to before, or null.
   */
  function PutIfAbsent(m: Store, k: Bytes, v: Bytes): (r: PutResult)
    ensures r.previous == Get(m, k)
    ensures r.previous == None ==> k in r.after && r.after[k] == v
    ensures r.previous != None ==> r.after == m
    ensures AgreeExcept(m, r.after, k)
  {
    if k in m then PutResult(Some(m[k]), m) else PutResult(None, m[k := v])
  }

  /** What a conditional `replace` returns, together with the map it leaves behind. */
  datatype ReplaceResult = ReplaceResult(replaced: bool, after: Store)

  /**
   * `replace(k, expected, v)`: binds `k` to `v` only if `k` is currently
   * bound to a value equal to `expected`; returns whether it replaced.
   */
  function Replace(m: Store, k: Bytes, expected: Bytes, v: Bytes): (r: ReplaceResult)
    ensures r.replaced <==> Get(m, k) == Some(expected)
    ensures r.replaced ==> k in r.after && r.after[k] == v
    ensures !r.replaced ==> r.after == m
    ensures AgreeExcept(m, r.after, k)
  {
    if k in m && m[k] == expected then ReplaceResult(true, m[k := v]) else ReplaceResult(false, m)
  }

  /** `remove(k)`: deletes any binding of `k`; an unbound key is left alone. */
  function Remove(m: Store, k: Bytes): (m': Store)
    ensures k !in m'
    ensures AgreeExcept(m, m', k)
    ensures k !in m ==> m' == m
    ensures |m'| == if k in m then |m| - 1 else |m|
  {
    m - {k}
  }

  /**
   * `keySet().iterator()`: the keys of `m`, each exactly once, in an order
   * the map does not specify (the choice below is arbitrary).
   */
  method KeySet(m: Store) returns (keys: seq<Bytes>)
    ensures Distinct(keys)
    ensures forall k :: k in keys <==> k in m
  {
    keys := [];
    var rest := m.Keys;
    while rest != {}
      invariant rest <= m.Keys
      invariant forall k :: k in keys <==> k in m && k !in rest
      invariant Distinct(keys)
      decreases |rest|
    {
      var k :| k in rest;
      keys := keys + [k];
      rest := rest - {k};
    }
  }

}
