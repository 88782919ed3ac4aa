/**
 * What callers of the cache store can conclude from its contracts alone.
 */
module CacheStoreClients {
  import opened Wrappers
  import opened ConcurrentMap
  import opened KeySelection
  import opened HazelcastCache

  /**
   * How many of `attempts`, tried in order with the expectation `expected`,
   * install exactly the expected value before the first one that changes it.
   */
  function FirstChange(expected: Option<Bytes>, attempts: seq<Bytes>): (f: nat)
    ensures f <= |attempts|
    ensures forall i :: 0 <= i < f ==> Some(attempts[i]) == expected
    ensures f < |attempts| ==> Some(attempts[f]) != expected
  {
    if attempts == [] || Some(attempts[0]) != expected then 0
    else 1 + FirstChange(expected, attempts[1..])
  }

  /**
   * Several callers race to `replace` the same key with the same expected
   * value, which holds when they start. The store's backing primitive
   * serializes them, and in the resulting order every attempt succeeds up
   * to and including the first one that installs a value other than the
   * expected one; every later attempt gets `CacheUpdateException`, and the
   * key ends up bound to that first changing attempt's value. In particular,
   * when no attempt installs the expected value exactly one succeeds, and
   * when every attempt installs it all of them succeed and nothing changes.
   */
  method SerializedContention(store: HazelcastCacheStore, key: Bytes, expected: Option<Bytes>, attempts: seq<Bytes>)
    returns (winners: seq<nat>)
    requires ConcurrentMap.Get(store.cache, key) == expected
    modifies store
    ensures var f := FirstChange(expected, attempts);
      && |winners| == (if f < |attempts| then f + 1 else f)
      && (forall j :: 0 <= j < |winners| ==> winners[j] == j)
      && store.cache == if f < |attempts| then old(store.cache)[key := attempts[f]] else old(store.cache)
    ensures (forall i :: 0 <= i < |attempts| ==> expected != Some(attempts[i])) ==>
      if attempts == [] then winners == [] && store.cache == old(store.cache)
      else winners == [0] && store.cache == old(store.cache)[key := attempts[0]]
  {
    ghost var f := FirstChange(expected, attempts);
    winners := [];
    var i := 0;
    while i < |attempts|
      invariant 0 <= i <= |attempts|
      invariant |winners| == (if i <= f then i else f + 1)
      invariant forall j :: 0 <= j < |winners| ==> winners[j] == j
      invariant i <= f ==> store.cache == old(store.cache)
      invariant i > f ==> store.cache == old(store.cache)[key := attempts[f]]
    {
      var outcome := store.Replace(key, attempts[i], expected);
      if outcome == Pass {
        winners := winners + [i];
      }
      i := i + 1;
    }
    if (forall i :: 0 <= i < |attempts| ==> expected != Some(attempts[i])) && attempts != [] {
      assert f == 0;
    }
  }

  /**
   * Drains the iterator of `getKeys` while nothing else touches the store.
   * The walk offers every key of the store exactly once, the selector's
   * answers are those its transition functions give, and the records are
   * exactly the keys the filter kept, in walk order, each paired with the
   * value the store holds for it.
   */
  method DrainKeys<S>(store: HazelcastCacheStore, selector: KeySelector<S>)
    returns (entries: seq<KeyValueEntry>, ghost probes: seq<Probe>)
    modifies selector
    ensures Distinct(ProbedKeys(probes))
    ensures forall k :: k in ProbedKeys(probes) <==> k in store.cache
    ensures Replays(selector.includeStep, selector.limitStep, old(selector.state), probes, selector.state)
    ensures entries == Records(store.cache, AcceptedKeys(probes))
    ensures Distinct(AcceptedKeys(probes))
    ensures forall j :: 0 <= j < |entries| ==>
      entries[j].key in store.cache && entries[j].value == Some(store.cache[entries[j].key])
  {
    var it := store.GetKeys(selector);
    entries := [];
    var exhausted := false;
    ghost var start, contents := selector.state, store.cache;
    while !exhausted
      invariant it.Valid() && it.store == store && it.selector == selector && it.pending == None
      invariant store.cache == contents
      invariant forall k :: k in it.keys <==> k in contents
      invariant Replays(selector.includeStep, selector.limitStep, start, it.probes, selector.state)
      invariant entries == Records(contents, it.yielded)
      invariant exhausted ==> ProbedKeys(it.probes) == it.keys && it.yielded == AcceptedKeys(it.probes)
      decreases |it.keys| - it.pos + (if exhausted then 0 else 1)
    {
      ghost var walked := it.probes;
      ghost var before := selector.state;
      ghost var returned := it.yielded;
      var r := it.Next();
      ReplaysAppend(selector.includeStep, selector.limitStep, start, walked,
                    before, it.probes[|walked|..], selector.state);
      ExtendedSuffix(walked, it.probes, 0);
      if r.Err? {
        exhausted := true;
      } else {
        RecordsSnoc(contents, returned, r.value.key);
        entries := entries + [r.value];
      }
    }
    probes := it.probes;
    AcceptedKeysDistinct(probes);
    AcceptedKeysProbed(probes);
  }

  /**
   * An example run: insert into an empty store, a
   * compare-and-set with a wrong expectation, one with the right one, a
   * delete, a lock request and a partition request.
   */
  method ExampleScenario(k: Bytes)
  {
    var a, b, x := [0x61 as bv8], [0x62 as bv8], [0x78 as bv8];
    var store := new HazelcastCacheStore("scenario", map[]);

    var outcome := store.Replace(k, a, None);
    assert outcome == Pass;
    var value := store.Get(k);
    assert value == Some(a);

    outcome := store.Replace(k, b, None);
    assert outcome == Fail(CacheUpdateException(k, None, b));

    outcome := store.Replace(k, b, Some(x));
    assert outcome.Fail?;
    value := store.Get(k);
    assert value == Some(a);

    outcome := store.Replace(k, b, Some(a));
    assert outcome == Pass;
    value := store.Get(k);
    assert value == Some(b);

    store.Delete(k);
    value := store.Get(k);
    assert value == None;
    store.Delete(k);
    var present := store.ContainsKey(k);
    assert !present;

    store.AcquireLock(k, Some(a));
    value := store.Get(k);
    assert value == None;

    var partition := store.GetLocalKeyPartition();
    assert partition.Err?;
  }
}
