/** A fixed array of shards with key-to-shard routing: every single-key
    command goes to shard Djb2a(key bytes) mod count, and Keys gathers the
    keys of every shard. The locks and the goroutine fan-out of Keys are not
    modelled; Keys visits the shards one after the other. */
module Cluster {
  import opened StorageSpec
  import Storage
  import Hasher
  import Utf8

  /** The shard a key lives in. */
  function ShardOf(key: string, count: int): (i: int)
    requires count >= 1
    ensures 0 <= i < count
  {
    Hasher.Djb2a(Utf8.Encode(key)) as int % count
  }

  /** Every key stored in shard i routes to i. */
  ghost predicate Routed(shards: seq<Items>) {
    |shards| >= 1 &&
    forall i, k :: 0 <= i < |shards| && k in shards[i] ==> ShardOf(k, |shards|) == i
  }

  /** The keys every shard's scan reports, counted with multiplicity. */
  ghost function LiveMultiset(shards: seq<Items>, now: int): multiset<string>
    decreases |shards|
  {
    if shards == [] then multiset{}
    else LiveMultiset(shards[..|shards| - 1], now) + multiset(LiveKeys(shards[|shards| - 1], now))
  }

  /** The live keys of all shards together. */
  ghost function LiveUnion(shards: seq<Items>, now: int): set<string>
    decreases |shards|
  {
    if shards == [] then {}
    else LiveUnion(shards[..|shards| - 1], now) + LiveKeys(shards[|shards| - 1], now)
  }

  lemma {:induction false} LiveUnionMembers(shards: seq<Items>, now: int, k: string)
    ensures k in LiveUnion(shards, now) <==> exists i :: 0 <= i < |shards| && k in LiveKeys(shards[i], now)
    decreases |shards|
  {
    if shards != [] {
      var init := shards[..|shards| - 1];
      LiveUnionMembers(init, now, k);
      if k in LiveUnion(init, now) {
        var i :| 0 <= i < |init| && k in LiveKeys(init[i], now);
        assert shards[i] == init[i];
      }
      if exists i :: 0 <= i < |shards| && k in LiveKeys(shards[i], now) {
        var i :| 0 <= i < |shards| && k in LiveKeys(shards[i], now);
        if i < |init| {
          assert init[i] == shards[i];
        }
      }
    }
  }

  /** Shards whose key sets are pairwise disjoint report no key twice: their
      concatenated scans are the union of their live keys. */
  lemma {:induction false} DisjointLiveMultiset(shards: seq<Items>, now: int)
    requires forall i, j, k :: 0 <= i < j < |shards| && k in shards[i] ==> k !in shards[j]
    ensures LiveMultiset(shards, now) == multiset(LiveUnion(shards, now))
    decreases |shards|
  {
    if shards != [] {
      var init := shards[..|shards| - 1];
      var last := LiveKeys(shards[|shards| - 1], now);
      DisjointLiveMultiset(init, now);
      var before := LiveUnion(init, now);
      assert before !! last by {
        forall k | k in before ensures k !in last {
          LiveUnionMembers(init, now, k);
          var i :| 0 <= i < |init| && k in LiveKeys(init[i], now);
          assert k in shards[i];
        }
      }
      assert multiset(before + last) == multiset(before) + multiset(last) by {
        forall x ensures multiset(before + last)[x] == (multiset(before) + multiset(last))[x] { }
      }
    }
  }

  /** Routing makes the shards' key sets pairwise disjoint. */
  lemma RoutedDisjoint(shards: seq<Items>)
    requires Routed(shards)
    ensures forall i, j, k :: 0 <= i < j < |shards| && k in shards[i] ==> k !in shards[j]
  {
    forall i, j, k | 0 <= i < j < |shards| && k in shards[i] ensures k !in shards[j] {
      assert ShardOf(k, |shards|) == i;
    }
  }

  /** Under routing, the cluster-wide key list has no duplicates. */
  lemma RoutedKeysAreDistinct(shards: seq<Items>, now: int, keys: seq<string>)
    requires Routed(shards)
    requires multiset(keys) == LiveMultiset(shards, now)
    ensures NoDuplicates(keys)
    ensures forall k :: k in keys <==> k in LiveUnion(shards, now)
  {
    RoutedDisjoint(shards);
    DisjointLiveMultiset(shards, now);
    SetMultisetEnumeration(keys, LiveUnion(shards, now));
  }

  /** Known answers of the routing on ten shards: "a" goes to shard 4 and
      "b" to shard 7 (177604 and 177607 mod 10). */
  lemma ShardOfKnownAnswers()
    ensures ShardOf("a", 10) == 4 && ShardOf("b", 10) == 7
  {
    assert Utf8.Encode("a") == [0x61] && Utf8.Encode("b") == [0x62];
    Hasher.KnownAnswers();
  }

  class Cluster {
    const instances: array<Storage.Storage>
    const count: int

    ghost predicate Valid()
      reads instances, instances[..]
    {
      && count >= 1
      && instances.Length == count
      && (forall i, j :: 0 <= i < j < count ==> instances[i] != instances[j])
      && (forall i, k :: 0 <= i < count && k in instances[i].items ==> ShardOf(k, count) == i)
    }

    /** The item maps of all shards, in shard order. */
    ghost function Shards(): (s: seq<Items>)
      reads instances, instances[..]
      ensures |s| == instances.Length
      ensures forall i :: 0 <= i < instances.Length ==> s[i] == instances[i].items
    {
      seq(instances.Length, i reads instances, instances[..] requires 0 <= i < instances.Length => instances[i].items)
    }

    /** NewCluster: count fresh, empty shards sharing one clean interval. */
    constructor (count: int, cleanInterval: int)
      requires count >= 1 && cleanInterval >= 0
      ensures Valid() && this.count == count
      ensures fresh(instances)
      ensures forall i :: 0 <= i < count ==>
                fresh(instances[i]) && instances[i].items == map[] && !instances[i].shutDown
                && instances[i].cleanInterval == cleanInterval
    {
      var made: seq<Storage.Storage> := [];
      var i := 0;
      while i < count
        invariant 0 <= i <= count && |made| == i
        invariant forall j :: 0 <= j < i ==>
                    fresh(made[j]) && made[j].items == map[] && !made[j].shutDown
                    && made[j].cleanInterval == cleanInterval
        invariant forall j, j' :: 0 <= j < j' < i ==> made[j] != made[j']
      {
        var s := new Storage.Storage(cleanInterval);
        made := made + [s];
        i := i + 1;
      }
      instances := new Storage.Storage[count](j requires 0 <= j < count => made[j]);
      this.count := count;
    }

    /** The shard a key routes to, hashed with a fresh hasher on every call. */
    method Instance(key: string) returns (s: Storage.Storage)
      requires Valid()
      ensures s == instances[ShardOf(key, count)]
    {
      var hasher := new Hasher.Djb2aStringHash32();
      var _ := hasher.Write(Utf8.Encode(key));
      var sum := hasher.Sum32();
      s := instances[sum as int % count];
    }

    method Expire(key: string, ttl: int, now: int) returns (ok: bool)
      requires Valid() && ttl >= 0
      modifies instances[ShardOf(key, count)]
      ensures Valid()
      ensures var i := ShardOf(key, count);
        && (ok <==> key in old(instances[i].items))
        && instances[i].items == ExpireItems(old(instances[i].items), key, GetExpiration(ttl, now))
      ensures instances[ShardOf(key, count)].shutDown == old(instances[ShardOf(key, count)].shutDown)
      ensures forall j :: 0 <= j < count && j != ShardOf(key, count) ==> instances[j].items == old(instances[j].items)
    {
      var s := Instance(key);
      ok := s.Expire(key, ttl, now);
    }

    method Set(key: string, val: string, ttl: int, now: int)
      requires Valid() && ttl >= 0
      modifies instances[ShardOf(key, count)]
      ensures Valid()
      ensures var i := ShardOf(key, count);
        instances[i].items == SetItems(old(instances[i].items), key, val, ttl, now)
      ensures instances[ShardOf(key, count)].shutDown == old(instances[ShardOf(key, count)].shutDown)
      ensures forall j :: 0 <= j < count && j != ShardOf(key, count) ==> instances[j].items == old(instances[j].items)
    {
      var s := Instance(key);
      s.Set(key, val, ttl, now);
    }

    method Get(key: string, now: int) returns (val: string, err: Error)
      requires Valid()
      ensures Reply(val, err) == GetReply(instances[ShardOf(key, count)].items, key, now)
    {
      var s := Instance(key);
      val, err := s.Get(key, now);
    }

    method Remove(key: string)
      requires Valid()
      modifies instances[ShardOf(key, count)]
      ensures Valid()
      ensures var i := ShardOf(key, count);
        instances[i].items == RemoveItems(old(instances[i].items), key)
      ensures instances[ShardOf(key, count)].shutDown == old(instances[ShardOf(key, count)].shutDown)
      ensures forall j :: 0 <= j < count && j != ShardOf(key, count) ==> instances[j].items == old(instances[j].items)
    {
      var s := Instance(key);
      s.Remove(key);
    }

    /** Every shard's live keys, concatenated shard after shard. */
    method Keys(now: int) returns (keys: seq<string>)
      requires Valid()
      ensures multiset(keys) == LiveMultiset(Shards(), now)
      ensures NoDuplicates(keys)
      ensures forall k :: k in keys <==> k in LiveUnion(Shards(), now)
    {
      keys := [];
      var i := 0;
      while i < count
        invariant 0 <= i <= count
        invariant multiset(keys) == LiveMultiset(Shards()[..i], now)
      {
        var part := instances[i].Keys(now);
        EnumerationMultiset(part, LiveKeys(instances[i].items, now));
        assert Shards()[..i + 1][..i] == Shards()[..i];
        keys := keys + part;
        i := i + 1;
      }
      assert Shards()[..count] == Shards();
      RoutedKeysAreDistinct(Shards(), now, keys);
    }

    method Hget(key: string, field: string, now: int) returns (val: string, err: Error)
      requires Valid()
      ensures Reply(val, err) == HgetReply(instances[ShardOf(key, count)].items, key, field, now)
    {
      var s := Instance(key);
      val, err := s.Hget(key, field, now);
    }

    method Hset(key: string, field: string, val: string) returns (err: Error)
      requires Valid()
      modifies instances[ShardOf(key, count)]
      ensures Valid()
      ensures var i := ShardOf(key, count);
        && err == FieldWriteError(old(instances[i].items), key)
        && instances[i].items == HsetItems(old(instances[i].items), key, field, val)
      ensures instances[ShardOf(key, count)].shutDown == old(instances[ShardOf(key, count)].shutDown)
      ensures forall j :: 0 <= j < count && j != ShardOf(key, count) ==> instances[j].items == old(instances[j].items)
    {
      var s := Instance(key);
      err := s.Hset(key, field, val);
    }

    method Hdel(key: string, field: string) returns (err: Error)
      requires Valid()
      modifies instances[ShardOf(key, count)]
      ensures Valid()
      ensures var i := ShardOf(key, count);
        && err == FieldWriteError(old(instances[i].items), key)
        && instances[i].items == HdelItems(old(instances[i].items), key, field)
      ensures instances[ShardOf(key, count)].shutDown == old(instances[ShardOf(key, count)].shutDown)
      ensures forall j :: 0 <= j < count && j != ShardOf(key, count) ==> instances[j].items == old(instances[j].items)
    {
      var s := Instance(key);
      err := s.Hdel(key, field);
    }

    /** One tick of shard i's cleaner goroutine, which runs while the shard
        has a positive clean interval and is not shut down. Sweeping keeps
        every remaining key in the shard it routes to. */
    method Cleaner(i: int, now: int)
      requires Valid() && 0 <= i < count
      requires instances[i].cleanInterval > 0 && !instances[i].shutDown
      modifies instances[i]
      ensures Valid()
      ensures instances[i].items == Sweep(old(instances[i].items), now)
      ensures !instances[i].shutDown
      ensures forall j :: 0 <= j < count && j != i ==> instances[j].items == old(instances[j].items)
    {
      instances[i].DeleteExpiredItems(now);
    }

    /** Shut every shard down, each exactly once. */
    method Shutdown()
      requires Valid()
      requires forall i :: 0 <= i < count ==> !instances[i].shutDown
      modifies instances[..]
      ensures Valid()
      ensures forall i :: 0 <= i < count ==> instances[i].shutDown && instances[i].items == old(instances[i].items)
    {
      var i := 0;
      while i < count
        invariant 0 <= i <= count
        invariant forall j :: 0 <= j < count ==> instances[j].items == old(instances[j].items)
        invariant forall j :: 0 <= j < count ==> instances[j].shutDown == (j < i || old(instances[j].shutDown))
      {
        instances[i].Shutdown();
        i := i + 1;
      }
    }
  }
}

/** The wrong-type cases of the cluster tests, stated for any clock
    reading `now`: a field map read by Get and a scalar read by Hget both
    report ErrorWrongType, and neither write disturbs the other key. */
method ClusterWrongType(now: int)
{
  var c := new Cluster.Cluster(10, 0);
  Cluster.ShardOfKnownAnswers();
  c.Set("a", "1", 0, now);
  var err := c.Hset("b", "f", "x");
  assert err == StorageSpec.NoError;
  var v, e := c.Get("b", now);
  assert e == StorageSpec.ErrorWrongType;
  v, e := c.Hget("a", "f", now);
  assert e == StorageSpec.ErrorWrongType;
  v, e := c.Get("a", now);
  assert v == "1" && e == StorageSpec.NoError;
}

/** The Keys case of the cluster tests: two keys written to a fresh cluster
    are listed once each, and nothing else is listed. */
method ClusterKeys(now: int)
{
  var c := new Cluster.Cluster(10, 0);
  Cluster.ShardOfKnownAnswers();
  c.Set("a", "1", 0, now);
  c.Set("b", "2", 0, now);
  assert forall i :: 0 <= i < 10 ==> c.instances[i].items.Keys <= {"a", "b"};
  var keys := c.Keys(now);
  assert "a" in StorageSpec.LiveKeys(c.Shards()[4], now);
  assert "b" in StorageSpec.LiveKeys(c.Shards()[7], now);
  Cluster.LiveUnionMembers(c.Shards(), now, "a");
  Cluster.LiveUnionMembers(c.Shards(), now, "b");
  forall k | k in keys ensures k == "a" || k == "b" {
    Cluster.LiveUnionMembers(c.Shards(), now, k);
  }
  assert "a" in keys && "b" in keys && StorageSpec.NoDuplicates(keys);
}

/** A cluster's lifecycle: writes leave every shard running, so the final
    Shutdown is allowed, and it keeps what was written. */
method ClusterLifecycle(now: int)
{
  var c := new Cluster.Cluster(4, 0);
  c.Set("k", "v", 0, now);
  var err := c.Hset("h", "f", "v");
  c.Remove("k");
  assert forall i :: 0 <= i < 4 ==> !c.instances[i].shutDown;
  ghost var before := c.Shards();
  c.Shutdown();
  assert c.Shards() == before;
}
