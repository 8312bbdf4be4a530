# keyval storage engine and cluster router, modelled in Dafny

keyval is an in-memory key-value store. Each key holds either a scalar
string or a field map (a "hash"). Each key also carries an expiration
stamp, where 0 means "never". The store is split into a fixed number of
shards. A key lives in the shard picked by a 32-bit multiply-xor variant of
Bernstein's hash (djb2a) of its bytes, taken modulo the shard count.

This project models both layers and proves properties about them:

- `storage_spec.dfy` (module `StorageSpec`): the item and value types and
  the expiration predicate. It also gives what each shard command means,
  as pure functions on the shard's item map, with lemmas about them.
- `storage.dfy` (module `Storage`): the shard as a class whose
  `items: map<string, Item>` field the commands update in place. Each
  command method is proved to return, or leave, exactly what its function
  in `StorageSpec` gives; `Keys` is proved to list the live keys once
  each, and the sweep loop to leave `Sweep` of the old map.
- `hasher.dfy` (module `Hasher`): the djb2a hasher object. A pure left
  fold specifies its `Write` loop.
- `utf8.dfy` (module `Utf8`): the bytes of a key, the way Go's
  `[]byte(key)` produces them.
- `cluster.dfy` (module `Cluster`): the fixed array of shards, the routing
  function, the delegating commands, `Keys` and `Shutdown`. Its invariant
  `Valid()` says the shards are distinct and every key stored in shard `i`
  routes to `i`. Every constructor and mutator establishes or preserves it.

Parameters that replace things the model leaves out:

- The wall clock is a parameter `now: int` (nanoseconds since the Unix
  epoch) on every operation that reads it.
- A time-to-live `ttl: int` is a number of nanoseconds.
- Go's `panic`s become preconditions: a negative ttl, a negative clean
  interval, a shard count below 1, and a second `Shutdown` of a shard.
- Go's `interface{}` item value becomes `datatype Value = Scalar(string) | Fields(map<string, string>)`.

Behaviours of the code that the model keeps:

- `Expire`, `Hset` and `Hdel` test whether the key is stored at all. They
  do not ask whether the item has expired. So `Expire` on an expired but
  unswept item stamps it again, and can revive it (`ExpireThenGet`).
- `Hset` on such an item writes the field. The item keeps its past
  expiration, so it stays invisible to `Hget`.
- `Hset` creates a new field map with expiration 0.

## Model

| member | source | states |
|---|---|---|
| StorageSpec.Expired | storage/storage.go:45-47 | an item stamped 0 is never expired, whatever the clock reads |
| StorageSpec.ExpiredStaysExpired | storage/storage.go:45-47 | an item expired at `now` is expired at every later time |
| StorageSpec.GetExpiration | storage/commands.go:13-23 | ttl 0 gives the stamp 0 ("never"); a positive ttl gives a stamp ttl nanoseconds after `now`, which for a clock after the epoch is nonzero and so never read as "never" |
| StorageSpec.ExpiresExactlyAfterTtl | storage/commands.go:13-23 | getExpiration with the `expired` test: for a clock after the epoch, an item stamped with ttl at `now` is expired at time t iff ttl > 0 and t - now > ttl; ttl 0 never expires |
| StorageSpec.SetItems | storage/commands.go:41-50 | Set adds the key and leaves every other key's item as it was |
| StorageSpec.SetThenGet | storage/commands_test.go:31-65 | after Set, whatever the key held before, Get returns the value with no error until the ttl has elapsed, then "" with no error |
| StorageSpec.SetThenFieldCommands | storage/commands_test.go:146-150 | until a key set by Set expires, Hget of any field reports ErrorWrongType; Hset and Hdel report ErrorWrongType on it, expired or not |
| StorageSpec.ExpireItems | storage/commands.go:25-39 | Expire keeps the key set. It changes only the stamp of the given key (when that key is stored) and never the key's value |
| StorageSpec.ExpireThenGet | storage/commands_test.go:67-82 | after Expire on a stored key, Get stops seeing it exactly when the new ttl has elapsed; until then it reads the stored value, even if the key had expired before |
| StorageSpec.RemoveItems | storage/commands.go:73-77 | Remove deletes exactly that key and leaves every other item as it was |
| StorageSpec.RemoveThenRead | storage/commands_test.go:84-98 | after Remove, Get and Hget of the key return "" with no error; a second Remove changes nothing |
| StorageSpec.FieldWriteError | storage/commands.go:114-153 | Hset and Hdel return ErrorWrongType iff the key is stored (expired or not) and holds a scalar |
| StorageSpec.HsetItems | storage/commands.go:114-135 | Hset: an absent key becomes a field map with just that field and expiration 0. A scalar is left alone. A field map keeps its tag and expiration. No other key changes |
| StorageSpec.HsetThenHget | storage/commands_test.go:153-200 | after Hset on a key that holds no scalar and is live, Hget of that field returns the value with no error |
| StorageSpec.HsetOtherFieldsAndOverwrite | storage/commands.go:114-135 | Hset leaves every other field's Hget result as it was; a second Hset to the same field replaces the first |
| StorageSpec.HsetThenGet | storage/commands_test.go:10-29 | after a successful Hset, while the item is live, Get reports ErrorWrongType |
| StorageSpec.HdelItems | storage/commands.go:137-153 | Hdel keeps the key set. An absent key or a scalar is left as it was. A field map keeps its tag and expiration. No other key changes |
| StorageSpec.HdelThenHget | storage/commands_test.go:202-232 | after Hdel on a key that holds no scalar, Hget of that field returns "" with no error and the other fields read as before; Hdel is idempotent |
| StorageSpec.Sweep | storage/storage.go:96-106 | the sweep keeps exactly the items not expired at `now`, each unchanged |
| StorageSpec.SweepInvisible | storage/storage.go:96-106 | at the same `now`, Keys, Get and Hget answer the same before and after a sweep |
| StorageSpec.EnumerationMultiset | storage/commands.go:79-91 | a duplicate-free list of exactly a set's members has that set's multiset |
| StorageSpec.SetMultisetEnumeration | cluster/commands.go:26-47 | a list whose multiset is a set's multiset lists each member exactly once |
| Storage.Storage.constructor | storage/storage.go:58-74 | NewStorage (clean interval >= 0) starts with no items and not shut down |
| Storage.Storage.Shutdown | storage/storage.go:77-79 | one-shot: requires not yet shut down, sets the flag, touches nothing else |
| Storage.Storage.DeleteExpiredItems | storage/storage.go:96-106 | the loop deleting in place leaves exactly `Sweep(old items, now)` |
| Storage.Storage.Expire | storage/commands.go:25-39 | true iff the key was stored; the new map is `ExpireItems` with the stamp from getExpiration |
| Storage.Storage.Set | storage/commands.go:41-50 | the new map is the old one with the key overwritten by `Scalar(val)` and the computed stamp |
| Storage.Storage.Get | storage/commands.go:52-71 | returns `GetReply`: "" with no error when absent or expired, ErrorWrongType for a field map, else the scalar |
| Storage.Storage.Remove | storage/commands.go:73-77 | the new map is the old one without the key |
| Storage.Storage.Keys | storage/commands.go:79-91 | lists exactly the stored keys not expired at `now`, each exactly once |
| Storage.Storage.Hget | storage/commands.go:93-112 | returns `HgetReply`: "" with no error when absent, expired or the field is missing; ErrorWrongType for a scalar |
| Storage.Storage.Hset | storage/commands.go:114-135 | error as `FieldWriteError`; new map as `HsetItems` |
| Storage.Storage.Hdel | storage/commands.go:137-153 | error as `FieldWriteError`; new map as `HdelItems` |
| Hasher.Step | cluster/hasher.go:40 | one byte absorbed: xor-ing the byte back out leaves 33 * h wrapped at 2^32, which equals the shift-and-add `(h << 5) + h` |
| Hasher.Fold | cluster/hasher.go:38-42 | the state after a byte string, read from the left as the loop does: the first byte is absorbed first, then the rest |
| Hasher.KnownAnswers | cluster/hasher.go:37-44 | the hash of the single byte "a" is 177604 and of "b" is 177607 |
| Hasher.FoldAppend | cluster/hasher.go:37-44 | the hash streams: absorbing a then b gives the state of absorbing a ++ b |
| Hasher.BigEndianRoundTrip | cluster/hasher.go:32-35 | the 4 bytes appended by Sum decode (big-endian) back to the 32-bit state |
| Hasher.Djb2aStringHash32.constructor | cluster/hasher.go:10-14 | newDjb32a starts at 5381 |
| Hasher.Djb2aStringHash32.Size | cluster/hasher.go:16-18 | Size is 4, the number of bytes Sum appends |
| Hasher.Djb2aStringHash32.BlockSize | cluster/hasher.go:20-22 | BlockSize is 1 |
| Hasher.Djb2aStringHash32.Sum32 | cluster/hasher.go:24-26 | returns the current state |
| Hasher.Djb2aStringHash32.Reset | cluster/hasher.go:28-30 | the state becomes 5381 |
| Hasher.Djb2aStringHash32.Sum | cluster/hasher.go:32-35 | returns b unchanged followed by 4 bytes that decode big-endian to the state |
| Hasher.Djb2aStringHash32.Write | cluster/hasher.go:37-44 | the loop leaves the state `Fold(old state, b)`, with `h := (33*h) xor c` wrapping at 2^32, and returns len(b) |
| Utf8.Encode | cluster/cluster.go:36 | a key of n characters has between n and 4n bytes |
| Utf8.EncodeAppend | cluster/cluster.go:36 | the bytes of a ++ b are the bytes of a followed by those of b |
| Utf8.EncodeAscii | cluster/cluster.go:36 | an ASCII key's bytes are its character codes, one per character |
| Utf8.DecodeEncodeChar | cluster/cluster.go:36 | every character's encoding decodes back to its code point |
| Cluster.ShardOf | cluster/cluster.go:33-40 | the routed index `djb2a(bytes of key) mod count` lies in [0, count) |
| Cluster.LiveUnionMembers | cluster/commands.go:26-47 | a key is in the union of the shards' live keys iff some shard holds it live |
| Cluster.DisjointLiveMultiset | cluster/commands.go:26-47 | when no key is in two shards, concatenating the shards' scans counts every live key once |
| Cluster.RoutedDisjoint | cluster/cluster.go:33-40 | under the routing invariant no key is stored in two shards |
| Cluster.RoutedKeysAreDistinct | cluster/commands.go:26-47 | under the routing invariant, any list with the concatenation's multiset has no duplicates and holds exactly the union of the shards' live keys |
| Cluster.ShardOfKnownAnswers | cluster/cluster.go:33-40 | on ten shards "a" routes to shard 4 and "b" to shard 7 |
| Cluster.Cluster.constructor | cluster/cluster.go:16-30 | NewCluster (count >= 1) makes count fresh, distinct, empty shards with the given clean interval; the invariant holds |
| Cluster.Cluster.Instance | cluster/cluster.go:33-40 | a fresh hasher fed the key's bytes picks `instances[ShardOf(key, count)]`, the shard `djb2a(bytes) mod count` |
| Cluster.Cluster.Expire | cluster/commands.go:10-12 | returns what Expire returns on the routed shard; only that shard changes; the routed shard stays running; the invariant is kept |
| Cluster.Cluster.Set | cluster/commands.go:14-16 | the routed shard's map becomes `SetItems`; no other shard changes; the routed shard stays running; the invariant is kept |
| Cluster.Cluster.Get | cluster/commands.go:18-20 | returns `GetReply` of the routed shard, ErrorWrongType included |
| Cluster.Cluster.Remove | cluster/commands.go:22-24 | the routed shard loses the key; no other shard changes; the routed shard stays running; the invariant is kept |
| Cluster.Cluster.Keys | cluster/commands.go:26-47 | the result's multiset is the sum of every shard's scan; it has no duplicates and holds exactly the live keys of all shards |
| Cluster.Cluster.Hget | cluster/commands.go:49-51 | returns `HgetReply` of the routed shard, ErrorWrongType included |
| Cluster.Cluster.Hset | cluster/commands.go:53-55 | error and new map of the routed shard as on a single shard; no other shard changes; the routed shard stays running; the invariant is kept |
| Cluster.Cluster.Hdel | cluster/commands.go:57-59 | error and new map of the routed shard as on a single shard; no other shard changes; the routed shard stays running; the invariant is kept |
| Cluster.Cluster.Cleaner | storage/storage.go:82-106 | one tick of a running shard's cleaner leaves that shard's map `Sweep`ed, changes no other shard and keeps the routing invariant |
| Cluster.Cluster.Shutdown | cluster/commands.go:61-65 | every shard, each not yet shut down, is shut down once; no item map changes |

Three methods have no contract. Their assertions rest only on the
contracts above, for any clock reading. Two of them follow cases of
cluster/commands_test.go:

- `ClusterWrongType` combines two tests. From TestCluster_Get (lines
  24-29): Hset, then Get reports ErrorWrongType. From TestCluster_Hget
  (lines 147-151): Set, then Hget reports ErrorWrongType.
- `ClusterKeys` follows TestCluster_Keys (lines 101-121) without the
  expiring key: two keys written are listed once each.

The third, `ClusterLifecycle`, is an added scenario that no test covers:
it writes, removes and then shuts the cluster down.

## Left out

- Locking: the `sync.RWMutex` of each shard, and the goroutine, WaitGroup
  and channel fan-out in cluster `Keys`. They concern concurrency. `Keys`
  visits the shards in index order, not in channel-arrival order. Its
  contract is stated as multiset equality, so it holds for any order.
- `runCleaner`: the ticker loop and the `select` on `done`. Only its body,
  `deleteExpiredItems`, is modelled, called with an explicit `now`; one
  tick on one shard of a cluster is `Cluster.Cluster.Cleaner`. The `done`
  channel becomes the `shutDown` flag.
- The real clock (`time.Now`) and sleeping: time is a parameter.
- GetExpiration: does not model the int64 range of `UnixNano`. `now + ttl`
  is an unbounded integer, so a stamp beyond the year 2262 does not wrap.
- The expiration lemmas assume a clock at or after the Unix epoch
  (`now >= 0`). Before the epoch, `now + ttl` can be exactly 0, which the
  code reads as "never expires".
- ShardOf: Go's `int` is taken to be 64 bits wide. On a 32-bit platform
  `int(hasher.Sum32())` is negative for a hash of 2^31 or more, and the
  index `sum % c.count` is then negative and panics; the model's index is
  always in range.
- Utf8.Encode: Go strings are byte strings and may hold invalid UTF-8.
  Dafny strings hold Unicode scalar values. So the model covers exactly
  the keys that are valid UTF-8, for which `[]byte(key)` is their UTF-8
  encoding.
- Hasher.Djb2aStringHash32.Write: the `error` result is always nil and is
  not returned.
- Field maps are Go reference maps that `Hset` and `Hdel` mutate in place.
  The map never leaves its item, so no aliasing can be observed. The model
  updates it as a value inside the item.
- The `Storage` interface and the `hash.Hash32` interface, as interface
  types: each command is modelled on the concrete type.
- The HTTP layer, the client and `main.go`: transport and process wiring.
