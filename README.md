# Hazelcast cache store, modelled in Dafny

This project models `HazelcastCacheStore`, the Titan storage adapter that offers a byte-keyed
cache store with compare-and-swap updates on top of one Hazelcast `IMap`. The backing map is a
finite map from byte strings to byte strings. Each `IMap` primitive the adapter uses is one
sequential step on that map, specified by the `java.util.concurrent.ConcurrentMap` contract:

- `get` returns the bound value or null;
- `putIfAbsent` returns the previous value or null;
- `replace(k, old, new)` returns whether it replaced;
- `remove` deletes the key;
- `keySet().iterator()` visits every key once.

Keys and values are compared byte for byte.

Modules:

- `Wrappers` (`wrappers.dfy`): `Option` (Java's null), `Result` and `Outcome` (a thrown exception).
- `ConcurrentMap` (`concurrent_map.dfy`): the backing map's state and primitives.
- `KeySelection` (`key_selector.dfy`): the caller's `KeySelector`. Its `include(key)` and
  `reachedLimit()` are transition functions over state the caller owns. The module also holds
  the probe record: the selector's answers for each key of a walk. `AcceptedKeys` is the
  specification of what the filtered walk keeps, with its lemmas.
- `HazelcastCache` (`hazelcast_cache_store.dfy`): the store class. Its field `cache` is the
  map's state, and `replace`, `delete` and `clearStore` reassign it. The module also holds the
  record iterator `getKeys` returns.
- `CacheStoreClients` (`cache_store_clients.dfy`): what callers can prove from the store's
  contracts alone. This covers a serialized race of `replace` calls, draining an iterator, and
  an example run (insert, failed and successful compare-and-set, delete, lock, partition).

The iterator follows Guava's `Iterators.filter`, which the source wraps around the key-set
iterator. `hasNext()` walks on until the filter accepts a key and holds that key back. `next()`
returns the held key with the value the map holds for it at that moment. The filter calls
`selector.include(key)` first and calls `selector.reachedLimit()` only when `include` returned
true. The probe record keeps that order: `limitReached` is `None` when it was not asked.
`Replays` says that a probe record is exactly what the selector's transition functions give,
starting from a given selector state, and the iterator's methods state that of the probes they add.

One might expect the walk to stop once the selector's limit is reached. The code keeps walking the remaining
keys and offers each one to the selector (`HazelcastCacheStore.java:74-79`). It only drops the
keys for which `reachedLimit()` answers true. Whether later keys can still be yielded depends
on the selector, so the model states nothing about it.

## Model

| member | source | states |
|---|---|---|
| `ConcurrentMap.Get` | titan-hazelcast/src/main/java/com/thinkaurelius/titan/diskstorage/hazelcast/HazelcastCacheStore.java:61 | returns null iff the key is unbound, otherwise the value bound to it |
| `ConcurrentMap.PutIfAbsent` | titan-hazelcast/src/main/java/com/thinkaurelius/titan/diskstorage/hazelcast/HazelcastCacheStore.java:47 | returns the previous binding (null if unbound); binds the key to the new value exactly when it was unbound; otherwise leaves the map as it was; never touches another key |
| `ConcurrentMap.Replace` | titan-hazelcast/src/main/java/com/thinkaurelius/titan/diskstorage/hazelcast/HazelcastCacheStore.java:49 | reports success iff the key is bound to bytes equal to the expected value; on success the key is bound to the new value, on failure the map is unchanged; no other key changes |
| `ConcurrentMap.Remove` | titan-hazelcast/src/main/java/com/thinkaurelius/titan/diskstorage/hazelcast/HazelcastCacheStore.java:56 | the key is unbound afterwards, every other binding is kept, an unbound key leaves the map unchanged, and the size drops by one exactly when the key was bound |
| `ConcurrentMap.KeySet` | titan-hazelcast/src/main/java/com/thinkaurelius/titan/diskstorage/hazelcast/HazelcastCacheStore.java:74 | the walk's key sequence has no duplicates and holds exactly the map's keys, in unspecified order |
| `KeySelection.KeySelector.Include` | titan-hazelcast/src/main/java/com/thinkaurelius/titan/diskstorage/hazelcast/HazelcastCacheStore.java:77 | `include(key)` answers, and moves the selector's state, as the caller's inclusion function says |
| `KeySelection.KeySelector.ReachedLimit` | titan-hazelcast/src/main/java/com/thinkaurelius/titan/diskstorage/hazelcast/HazelcastCacheStore.java:77 | `reachedLimit()` answers, and moves the selector's state, as the caller's limit function says |
| `KeySelection.ReplaysAppend` | titan-hazelcast/src/main/java/com/thinkaurelius/titan/diskstorage/hazelcast/HazelcastCacheStore.java:74-79 | a walk the selector replays from one state to a middle state, followed by a walk it replays from there on, is replayed as a whole; this is how the probes of successive `hasNext()` calls add up to one walk |
| `KeySelection.AcceptedKeysExactly` | titan-hazelcast/src/main/java/com/thinkaurelius/titan/diskstorage/hazelcast/HazelcastCacheStore.java:74-79 | a key is kept by the filtered walk iff, when it was offered, `include` returned true and the `reachedLimit()` call that followed returned false |
| `KeySelection.AcceptedKeysDistinct` | titan-hazelcast/src/main/java/com/thinkaurelius/titan/diskstorage/hazelcast/HazelcastCacheStore.java:74-79 | a walk over distinct keys keeps no key twice |
| `KeySelection.AcceptedKeysLength` | titan-hazelcast/src/main/java/com/thinkaurelius/titan/diskstorage/hazelcast/HazelcastCacheStore.java:74-79 | the filter keeps no more keys than it was offered |
| `KeySelection.AcceptedKeysProbed` | titan-hazelcast/src/main/java/com/thinkaurelius/titan/diskstorage/hazelcast/HazelcastCacheStore.java:74-79 | every key the filter keeps is a key it was offered |
| `KeySelection.WalkStep` | titan-hazelcast/src/main/java/com/thinkaurelius/titan/diskstorage/hazelcast/HazelcastCacheStore.java:74-79 | offering the next key of the walk extends the offered keys by that key, and the kept keys by that key exactly when the selector accepted it |
| `HazelcastCache.HazelcastCacheStore.constructor` | titan-hazelcast/src/main/java/com/thinkaurelius/titan/diskstorage/hazelcast/HazelcastCacheStore.java:35-37 | the store is bound to the named map and sees that map's current content |
| `HazelcastCache.HazelcastCacheStore.Replace` | titan-hazelcast/src/main/java/com/thinkaurelius/titan/diskstorage/hazelcast/HazelcastCacheStore.java:40-52 | with a null expected value it succeeds iff the key was unbound; otherwise it succeeds iff the key was bound to bytes equal to the expected value; on success only the key changes, to the new value; on failure the map is unchanged and `CacheUpdateException` carries key, expected and new value |
| `HazelcastCache.HazelcastCacheStore.Delete` | titan-hazelcast/src/main/java/com/thinkaurelius/titan/diskstorage/hazelcast/HazelcastCacheStore.java:55-57 | the key is unbound afterwards, no other binding changes, and deleting an unbound key changes nothing and raises nothing |
| `HazelcastCache.HazelcastCacheStore.Get` | titan-hazelcast/src/main/java/com/thinkaurelius/titan/diskstorage/hazelcast/HazelcastCacheStore.java:60-65 | returns null iff the key is unbound, otherwise bytes equal to the stored value; does not change the map |
| `HazelcastCache.HazelcastCacheStore.ContainsKey` | titan-hazelcast/src/main/java/com/thinkaurelius/titan/diskstorage/hazelcast/HazelcastCacheStore.java:68-70 | true iff the key is bound, which is exactly when `get` returns non-null; does not change the map |
| `HazelcastCache.HazelcastCacheStore.GetKeys` | titan-hazelcast/src/main/java/com/thinkaurelius/titan/diskstorage/hazelcast/HazelcastCacheStore.java:73-81 | returns a new iterator over this store and this selector. It walks exactly the store's keys, has offered none to the selector yet and has yielded nothing |
| `HazelcastCache.HazelcastCacheStore.AcquireLock` | titan-hazelcast/src/main/java/com/thinkaurelius/titan/diskstorage/hazelcast/HazelcastCacheStore.java:106-108 | returns normally and changes no state |
| `HazelcastCache.HazelcastCacheStore.GetLocalKeyPartition` | titan-hazelcast/src/main/java/com/thinkaurelius/titan/diskstorage/hazelcast/HazelcastCacheStore.java:111-113 | always throws `UnsupportedOperationException` |
| `HazelcastCache.HazelcastCacheStore.ClearStore` | titan-hazelcast/src/main/java/com/thinkaurelius/titan/diskstorage/hazelcast/HazelcastCacheStore.java:121-127 | with an active Hazelcast instance the map is empty afterwards; with an inactive one the call returns normally and the map is unchanged |
| `HazelcastCache.RecordIterator.constructor` | titan-hazelcast/src/main/java/com/thinkaurelius/titan/diskstorage/hazelcast/HazelcastCacheStore.java:74-81 | a fresh walk over distinct keys with nothing offered and nothing yielded |
| `HazelcastCache.RecordIterator.Apply` | titan-hazelcast/src/main/java/com/thinkaurelius/titan/diskstorage/hazelcast/HazelcastCacheStore.java:77 | the filter's predicate: `include(key)` is asked first and `reachedLimit()` only when it answered true, both as the selector's transition functions say; the key is kept iff it was included and the limit was not reached |
| `HazelcastCache.RecordIterator.Offer` | titan-hazelcast/src/main/java/com/thinkaurelius/titan/diskstorage/hazelcast/HazelcastCacheStore.java:76-78 | offers the next key of the walk: the selector answers `include` and, only when that is true, `reachedLimit`, as its transition functions say; the key is held back exactly when it was included with the limit not reached; the walk moves one key on |
| `HazelcastCache.RecordIterator.HasNext` | titan-hazelcast/src/main/java/com/thinkaurelius/titan/diskstorage/hazelcast/HazelcastCacheStore.java:83-85 | true iff an accepted key is held back; false only once every key has been offered. A key already held is kept, no key is offered and the selector is untouched. Otherwise the call appends probes, which the selector's transition functions replay from its state at the call; it stops at the first accepted key, which is the last probe and is held, and none of the earlier new probes was accepted. What was yielded stays as it was |
| `HazelcastCache.RecordIterator.Next` | titan-hazelcast/src/main/java/com/thinkaurelius/titan/diskstorage/hazelcast/HazelcastCacheStore.java:88-91 | returns the held or next accepted key paired with the map's current binding for it, and appends it to what was yielded; a held key is returned without asking the selector. New probes are replayed by the selector and only the last one is accepted. Once the walk is exhausted it throws `NoSuchElementException`; then every key has been offered and the yielded keys are exactly the accepted ones. Afterwards the yielded keys are distinct, all from the key set, each accepted by the selector |
| `HazelcastCache.RecordIterator.YieldedFacts` | titan-hazelcast/src/main/java/com/thinkaurelius/titan/diskstorage/hazelcast/HazelcastCacheStore.java:73-91 | with no key held back, the yielded keys are distinct and at most as many as the key set. Each is in the key set, and the selector included it with its limit not yet reached |
| `HazelcastCache.RecordIterator.Remove` | titan-hazelcast/src/main/java/com/thinkaurelius/titan/diskstorage/hazelcast/HazelcastCacheStore.java:99-101 | always throws `UnsupportedOperationException` |
| `HazelcastCache.RecordIterator.Close` | titan-hazelcast/src/main/java/com/thinkaurelius/titan/diskstorage/hazelcast/HazelcastCacheStore.java:94-96 | does nothing |
| `CacheStoreClients.SerializedContention` | titan-hazelcast/src/main/java/com/thinkaurelius/titan/diskstorage/hazelcast/HazelcastCacheStore.java:46-51 | several `replace` calls on one key, all with the same expectation, which holds at the start, serialized in some order: every attempt succeeds up to and including the first one installing a value other than the expected one; the later ones fail; the key ends bound to that first changing value. With none installing the expected value, only the first succeeds; with every one installing it, all succeed and the map is unchanged |
| `CacheStoreClients.FirstChange` | titan-hazelcast/src/main/java/com/thinkaurelius/titan/diskstorage/hazelcast/HazelcastCacheStore.java:46-51 | the number of leading attempts that reinstall exactly the expected value, so that the next attempt, if any, changes it |
| `CacheStoreClients.DrainKeys` | titan-hazelcast/src/main/java/com/thinkaurelius/titan/diskstorage/hazelcast/HazelcastCacheStore.java:73-91 | draining `getKeys` on a store nobody writes to offers every key of the store exactly once, in an order the selector's transition functions replay from its starting state; the records are exactly the keys the selector accepted, in walk order, with no key twice, each paired with the value bound to it |

## Left out

- Hazelcast cluster behaviour is not modelled: replication, partitioning, and the atomicity of concurrent primitives across nodes. Each primitive is one sequential step, and concurrent callers appear only as a serialization order (`SerializedContention`).
- `close()` and `cache.destroy()` (lines 130-136) are not modelled. They are resource lifecycle on the external service.
- The constructor does not model `manager.getMap(name)` looking up or creating the map. The map's current content is passed in instead.
- `getName()` (line 116-118) has no member of its own. The store's name is the constant field `name`, set by the constructor.
- `HazelcastInstanceNotActiveException` and its `log.debug` are modelled only in `clearStore`, by the `instanceActive` parameter. The logging itself is not modelled. Other operations do not model an unreachable backend (`StorageException`), because the source raises none itself.
- The text of the exception message (line 29) is not modelled. `CacheUpdateException` carries the three values that the message formats.
- The unused `StoreTransaction` parameters are dropped.
- `StaticBuffer` conversions are not modelled. `as(ARRAY_FACTORY)` and `new StaticArrayBuffer(...)` are the identity on immutable byte strings. Because of that, `Get` does not model the returned buffer being a separate object.
- `KeySelection.KeySelector.Include`, `KeySelection.KeySelector.ReachedLimit`: the selector's internals are not shown, so they are caller-supplied transition functions. Nothing is proved about the selector's limit, such as "at most limit records". Any such promise comes from the selector.
- `HazelcastCache.HazelcastCacheStore.GetKeys` walks a snapshot of the key set taken when `getKeys` is called. It does not model keys that other writers add or remove while the walk is in progress.
