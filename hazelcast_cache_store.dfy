/**
 * `HazelcastCacheStore`: a byte-keyed cache store with compare-and-swap
 * updates, over one backing Hazelcast map, and the record iterator its key
 * walk returns.
 */
module HazelcastCache {
  import opened Wrappers
  import opened ConcurrentMap
  import opened KeySelection

  /**
   * Thrown by `replace` when the expectation about the current value does not
   * hold; carries the key, the expected old value (null for "unbound") and the
   * value that was to be installed.
   */
  datatype CacheUpdateException = CacheUpdateException(key: Bytes, expected: Option<Bytes>, attempted: Bytes)

  /** `UnsupportedOperationException`. */
  datatype UnsupportedOperation = UnsupportedOperation

  /** What `next()` of a record iterator throws. */
  datatype IteratorError = NoSuchElement | Unsupported

  /**
   * One record of the key walk. `value` is what the map held for `key` when
   * the record was produced (null if the key was deleted after the walk
   * passed it).
   */
  datatype KeyValueEntry = KeyValueEntry(key: Bytes, value: Option<Bytes>)

  /** The records for `keys`, each paired with its binding in `m`. */
  function Records(m: Store, keys: seq<Bytes>): (records: seq<KeyValueEntry>)
    ensures |records| == |keys|
    ensures forall j :: 0 <= j < |keys| ==> records[j] == KeyValueEntry(keys[j], ConcurrentMap.Get(m, keys[j]))
  {
    seq(|keys|, j requires 0 <= j < |keys| => KeyValueEntry(keys[j], ConcurrentMap.Get(m, keys[j])))
  }

  /** One more key gives one more record. */
  lemma RecordsSnoc(m: Store, keys: seq<Bytes>, k: Bytes)
    ensures Records(m, keys + [k]) == Records(m, keys) + [KeyValueEntry(k, ConcurrentMap.Get(m, k))]
  {
    assert Records(m, keys + [k]) == Records(m, keys) + [KeyValueEntry(k, ConcurrentMap.Get(m, k))];
  }

  class HazelcastCacheStore {
    /** The name of the backing map. */
    const name: string
    /** The backing map's state. */
    var cache: Store

    /** Binds the store to the map called `name`, whose current content is `existing`. */
    constructor (name: string, existing: Store)
      ensures this.name == name && cache == existing
    {
      this.name := name;
      cache := existing;
    }

    /**
     * `replace(key, newValue, oldValue)`. A null `oldValue` asks for
     * insert-if-absent, any other for compare-and-set; when the expectation
     * fails the map is left as it was and `CacheUpdateException` is thrown.
     */
    method Replace(key: Bytes, newValue: Bytes, oldValue: Option<Bytes>) returns (outcome: Outcome<CacheUpdateException>)
      modifies this
      ensures oldValue == None ==> (outcome == Pass <==> key !in old(cache))
      ensures oldValue != None ==> (outcome == Pass <==> key in old(cache) && old(cache)[key] == oldValue.value)
      ensures outcome == Pass ==> cache == old(cache)[key := newValue]
      ensures outcome != Pass ==> cache == old(cache) && outcome == Fail(CacheUpdateException(key, oldValue, newValue))
    {
      if oldValue == None {
        var put := PutIfAbsent(cache, key, newValue);
        cache := put.after;
        if put.previous != None {
          return Fail(CacheUpdateException(key, oldValue, newValue));
        }
      } else {
        var swap := ConcurrentMap.Replace(cache, key, oldValue.value, newValue);
        cache := swap.after;
        if !swap.replaced {
          return Fail(CacheUpdateException(key, oldValue, newValue));
        }
      }
      return Pass;
    }

    /** `delete(key)`: unconditional; deleting an unbound key changes nothing. */
    method Delete(key: Bytes)
      modifies this
      ensures key !in cache
      ensures AgreeExcept(old(cache), cache, key)
      ensures key !in old(cache) ==> cache == old(cache)
    {
      cache := Remove(cache, key);
    }

    /**
     * `get(key)`: null if `key` is unbound, otherwise a copy of the stored
     * bytes (a byte string is immutable here, so a copy is equal to it and
     * shares nothing with the map).
     */
    method Get(key: Bytes) returns (value: Option<Bytes>)
      ensures value == None <==> key !in cache
      ensures value != None ==> value.value == cache[key]
    {
      var stored := ConcurrentMap.Get(cache, key);
      if stored == None {
        return None;
      }
      return stored;
    }

    /** `containsKey(key)`: whether `key` is bound, i.e. whether `get` would return non-null. */
    method ContainsKey(key: Bytes) returns (present: bool)
      ensures present <==> key in cache
      ensures present <==> ConcurrentMap.Get(cache, key) != None
    {
      present := key in cache;
    }

    /**
     * `getKeys(selector)`: an iterator that walks a snapshot of the key set
     * and offers each key to `selector`.
     */
    method GetKeys<S>(selector: KeySelector<S>) returns (it: RecordIterator<S>)
      ensures fresh(it) && it.Valid()
      ensures it.store == this && it.selector == selector
      ensures forall k :: k in it.keys <==> k in cache
      ensures it.probes == [] && it.yielded == [] && it.pending == None
    {
      var keys := KeySet(cache);
      it := new RecordIterator(this, selector, keys);
    }

    /** `acquireLock`: not supported by this store, so it does nothing and does not fail. */
    method AcquireLock(key: Bytes, expectedValue: Option<Bytes>)
      ensures unchanged(this)
    {
    }

    /** `getLocalKeyPartition()`: always throws `UnsupportedOperationException`. */
    method GetLocalKeyPartition() returns (r: Result<seq<Bytes>, UnsupportedOperation>)
      ensures r == Err(UnsupportedOperation)
    {
      r := Err(UnsupportedOperation);
    }

    /**
     * `clearStore()`: empties the map. When the Hazelcast instance is no longer
     * active the exception is swallowed (only logged), so the call returns
     * normally and nothing is cleared.
     */
    method ClearStore(instanceActive: bool)
      modifies this
      ensures instanceActive ==> cache == map[]
      ensures !instanceActive ==> cache == old(cache)
    {
      if instanceActive {
        cache := map[];
      }
    }
  }

  /**
   * The iterator `getKeys` returns. It filters the key walk lazily, as
   * Guava's `Iterators.filter` does: `hasNext()` advances the walk until the
   * selector accepts a key and holds that key back; `next()` hands it out
   * with the value the map holds for it at that moment.
   */
  class RecordIterator<S> {
    const store: HazelcastCacheStore
    const selector: KeySelector<S>
    /** The key set, in the order the walk visits it. */
    const keys: seq<Bytes>
    /** How many keys of the walk have been offered to the selector. */
    var pos: nat
    /** A key accepted by `hasNext()` and not yet returned by `next()`. */
    var pending: Option<Bytes>
    /** What the selector answered for each key offered so far. */
    ghost var probes: seq<Probe>
    /** The keys `next()` has returned so far. */
    ghost var yielded: seq<Bytes>

    ghost predicate Valid()
      reads this
    {
      && Distinct(keys)
      && pos <= |keys|
      && ProbedKeys(probes) == keys[..pos]
      && AcceptedKeys(probes) == yielded + (if pending == None then [] else [pending.value])
    }

    constructor (store: HazelcastCacheStore, selector: KeySelector<S>, keys: seq<Bytes>)
      requires Distinct(keys)
      ensures Valid()
      ensures this.store == store && this.selector == selector && this.keys == keys
      ensures probes == [] && yielded == [] && pending == None
    {
      this.store := store;
      this.selector := selector;
      this.keys := keys;
      pos := 0;
      pending := None;
      probes := [];
      yielded := [];
    }

    /**
     * The filter's predicate, `selector.include(key) && !selector.reachedLimit()`:
     * `reachedLimit()` is asked only when `include` said true. `probe`
     * records the selector's answers.
     */
    method Apply(key: Bytes) returns (kept: bool, ghost probe: Probe)
      modifies selector
      ensures probe.key == key && (kept <==> Accepted(probe))
      ensures Replays(selector.includeStep, selector.limitStep, old(selector.state), [probe], selector.state)
    {
      var included := selector.Include(key);
      kept := false;
      if included {
        var reached := selector.ReachedLimit();
        kept := !reached;
        probe := Probe(key, true, Some(reached));
      } else {
        probe := Probe(key, false, None);
      }
    }

    /**
     * Offers the next key of the walk to the filter; a key it keeps is held
     * back for `next()`.
     */
    method Offer() returns (kept: bool, ghost probe: Probe)
      requires Valid() && pending == None && pos < |keys|
      modifies this, selector
      ensures Valid()
      ensures pos == old(pos) + 1 && yielded == old(yielded)
      ensures probes == old(probes) + [probe] && probe.key == keys[old(pos)]
      ensures Replays(selector.includeStep, selector.limitStep, old(selector.state), [probe], selector.state)
      ensures kept <==> Accepted(probe)
      ensures pending == if kept then Some(probe.key) else None
    {
      var key := keys[pos];
      kept, probe := Apply(key);
      WalkStep(keys, pos, probes, probe);
      probes := probes + [probe];
      pos := pos + 1;
      if kept {
        pending := Some(key);
      }
    }

    /**
     * `hasNext()`: true when an accepted key is waiting, found either
     * earlier or now by walking on; false once the walk is exhausted. A held
     * key is kept without asking the selector again; otherwise the keys
     * walked now are offered to the selector one at a time, and the walk
     * stops at the first one the filter keeps.
     */
    method HasNext() returns (more: bool)
      requires Valid()
      modifies this, selector
      ensures Valid()
      ensures more <==> pending != None
      ensures !more ==> pos == |keys|
      ensures old(probes) <= probes
      ensures yielded == old(yielded)
      ensures old(pending) != None ==> pending == old(pending) && probes == old(probes) && unchanged(selector)
      ensures Replays(selector.includeStep, selector.limitStep, old(selector.state), probes[|old(probes)|..], selector.state)
      ensures forall i :: |old(probes)| <= i < |probes| - 1 ==> !Accepted(probes[i])
      ensures old(pending) == None && more ==>
        |probes| > |old(probes)| && Accepted(probes[|probes| - 1]) && pending == Some(probes[|probes| - 1].key)
      ensures !more ==> forall i :: |old(probes)| <= i < |probes| ==> !Accepted(probes[i])
    {
      if pending != None {
        assert probes[|probes|..] == [];
        return true;
      }
      ghost var start, walked0 := selector.state, probes;
      while pos < |keys|
        invariant Valid()
        invariant pending == None
        invariant walked0 <= probes
        invariant yielded == old(yielded)
        invariant Replays(selector.includeStep, selector.limitStep, start, probes[|walked0|..], selector.state)
        invariant forall i :: |walked0| <= i < |probes| ==> !Accepted(probes[i])
      {
        ghost var before := selector.state;
        ghost var walked := probes;
        var kept, probe := Offer();
        ReplaysAppend(selector.includeStep, selector.limitStep, start, walked[|walked0|..],
                      before, [probe], selector.state);
        assert probes[|walked|..] == [probe];
        ExtendedSuffix(walked, probes, |walked0|);
        if kept {
          return true;
        }
      }
      return false;
    }

    /**
     * `next()`: the next accepted key, paired with its value as the map holds
     * it now; throws `NoSuchElementException` when the walk is exhausted,
     * in which case every key has been offered and every key the filter
     * kept has been returned. Every key returned so far was in the key set,
     * was accepted by the selector, and was returned only once.
     */
    method Next() returns (r: Result<KeyValueEntry, IteratorError>)
      requires Valid()
      modifies this, selector
      ensures Valid() && pending == None
      ensures old(probes) <= probes
      ensures Replays(selector.includeStep, selector.limitStep, old(selector.state), probes[|old(probes)|..], selector.state)
      ensures forall i :: |old(probes)| <= i < |probes| - 1 ==> !Accepted(probes[i])
      ensures old(pending) != None ==>
        probes == old(probes) && unchanged(selector) && r.Ok? && r.value.key == old(pending).value
      ensures r.Ok? && old(pending) == None ==>
        |probes| > |old(probes)| && Accepted(probes[|probes| - 1]) && r.value.key == probes[|probes| - 1].key
      ensures r.Ok? ==> yielded == old(yielded) + [r.value.key]
      ensures r.Ok? ==> r.value.value == ConcurrentMap.Get(store.cache, r.value.key)
      ensures r.Err? ==> r.error == NoSuchElement && yielded == old(yielded)
      ensures r.Err? ==> ProbedKeys(probes) == keys && yielded == AcceptedKeys(probes)
      ensures r.Err? ==> forall i :: |old(probes)| <= i < |probes| ==> !Accepted(probes[i])
      ensures Distinct(yielded) && |yielded| <= |keys|
      ensures forall j :: 0 <= j < |yielded| ==> yielded[j] in keys
      ensures forall j :: 0 <= j < |yielded| ==> WasAccepted(probes, yielded[j])
    {
      var more := HasNext();
      if !more {
        assert keys[..pos] == keys;
        r := Err(NoSuchElement);
      } else {
        var key := pending.value;
        pending := None;
        yielded := yielded + [key];
        r := Ok(KeyValueEntry(key, ConcurrentMap.Get(store.cache, key)));
      }
      YieldedFacts();
    }

    /** The properties of the keys returned so far follow from the probe record. */
    lemma YieldedFacts()
      requires Valid() && pending == None
      ensures Distinct(yielded) && |yielded| <= |keys|
      ensures forall j :: 0 <= j < |yielded| ==> yielded[j] in keys
      ensures forall j :: 0 <= j < |yielded| ==> WasAccepted(probes, yielded[j])
    {
      assert yielded == AcceptedKeys(probes);
      AcceptedKeysDistinct(probes);
      AcceptedKeysExactly(probes);
      AcceptedKeysLength(probes);
      forall j | 0 <= j < |yielded|
        ensures yielded[j] in keys
        ensures WasAccepted(probes, yielded[j])
      {
        assert yielded[j] in AcceptedKeys(probes);
        var i :| 0 <= i < |probes| && probes[i].key == yielded[j] && Accepted(probes[i]);
        assert ProbedKeys(probes)[i] == keys[i];
      }
    }

    /** `remove()`: always throws `UnsupportedOperationException`. */
    method Remove() returns (outcome: Outcome<IteratorError>)
      ensures outcome == Fail(Unsupported)
    {
      outcome := Fail(Unsupported);
    }

    /** `close()`: nothing to release. */
    method Close()
      ensures unchanged(this)
    {
    }
  }
}
