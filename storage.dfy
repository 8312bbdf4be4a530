/** One shard of the store: a map from key to item that the commands update
    in place. The reader/writer lock, the cleaner goroutine and its ticker are
    not modelled; `shutDown` stands for the closed `done` channel. */
module Storage {
  import opened StorageSpec

  class Storage {
    var items: Items
    const cleanInterval: int
    var shutDown: bool

    /** NewStorage: a shard with no items and a running cleaner (when the
        interval is positive). */
    constructor (cleanInterval: int)
      requires cleanInterval >= 0
      ensures items == map[] && !shutDown
      ensures this.cleanInterval == cleanInterval
    {
      items := map[];
      this.cleanInterval := cleanInterval;
      shutDown := false;
    }

    /** Closing the channel a second time is a fault, hence the precondition. */
    method Shutdown()
      requires !shutDown
      modifies this`shutDown
      ensures shutDown
    {
      shutDown := true;
    }

    /** One tick of the cleaner: delete every item expired at `now`. */
    method DeleteExpiredItems(now: int)
      modifies this`items
      ensures items == Sweep(old(items), now)
    {
      var pending := items.Keys;
      while pending != {}
        invariant pending <= old(items).Keys
        invariant forall k :: k in items <==> k in old(items) && (k in pending || !Expired(old(items)[k], now))
        invariant forall k :: k in items ==> items[k] == old(items)[k]
        decreases pending
      {
        var k :| k in pending;
        if Expired(items[k], now) {
          items := items - {k};
        }
        pending := pending - {k};
      }
      assert items == Sweep(old(items), now);
    }

    method Expire(key: string, ttl: int, now: int) returns (ok: bool)
      requires ttl >= 0
      modifies this`items
      ensures ok <==> key in old(items)
      ensures items == ExpireItems(old(items), key, GetExpiration(ttl, now))
    {
      var exp := GetExpiration(ttl, now);
      if key !in items {
        return false;
      }
      var i := items[key];
      items := items[key := i.(expiration := exp)];
      return true;
    }

    method Set(key: string, val: string, ttl: int, now: int)
      requires ttl >= 0
      modifies this`items
      ensures items == SetItems(old(items), key, val, ttl, now)
    {
      var exp := GetExpiration(ttl, now);
      items := items[key := Item(Scalar(val), exp)];
    }

    method Get(key: string, now: int) returns (val: string, err: Error)
      ensures Reply(val, err) == GetReply(items, key, now)
    {
      if key !in items {
        return "", NoError;
      }
      var i := items[key];
      if Expired(i, now) {
        return "", NoError;
      }
      match i.value
      case Scalar(s) => return s, NoError;
      case Fields(_) => return "", ErrorWrongType;
    }

    method Remove(key: string)
      modifies this`items
      ensures items == RemoveItems(old(items), key)
    {
      items := items - {key};
    }

    /** The keys of the items not expired at `now`, each once, in no
        particular order. */
    method Keys(now: int) returns (keys: seq<string>)
      ensures NoDuplicates(keys)
      ensures forall k :: k in keys <==> k in LiveKeys(items, now)
    {
      keys := [];
      var pending := items.Keys;
      while pending != {}
        invariant pending <= items.Keys
        invariant NoDuplicates(keys)
        invariant forall k :: k in keys <==> k in items && k !in pending && !Expired(items[k], now)
        decreases pending
      {
        var k :| k in pending;
        if !Expired(items[k], now) {
          keys := keys + [k];
        }
        pending := pending - {k};
      }
    }

    method Hget(key: string, field: string, now: int) returns (val: string, err: Error)
      ensures Reply(val, err) == HgetReply(items, key, field, now)
    {
      if key !in items {
        return "", NoError;
      }
      var i := items[key];
      if Expired(i, now) {
        return "", NoError;
      }
      match i.value
      case Scalar(_) => return "", ErrorWrongType;
      case Fields(f) =>
        if field in f {
          return f[field], NoError;
        }
        return "", NoError;
    }

    /** Hset checks raw presence: a field map that has expired but is still
        stored receives the field and keeps its (past) expiration. */
    method Hset(key: string, field: string, val: string) returns (err: Error)
      modifies this`items
      ensures err == FieldWriteError(old(items), key)
      ensures items == HsetItems(old(items), key, field, val)
    {
      if key !in items {
        items := items[key := Item(Fields(map[field := val]), 0)];
        return NoError;
      }
      var i := items[key];
      match i.value
      case Scalar(_) => return ErrorWrongType;
      case Fields(f) =>
        items := items[key := i.(value := Fields(f[field := val]))];
        return NoError;
    }

    method Hdel(key: string, field: string) returns (err: Error)
      modifies this`items
      ensures err == FieldWriteError(old(items), key)
      ensures items == HdelItems(old(items), key, field)
    {
      if key !in items {
        return NoError;
      }
      var i := items[key];
      match i.value
      case Scalar(_) => return ErrorWrongType;
      case Fields(f) =>
        items := items[key := i.(value := Fields(f - {field}))];
        return NoError;
    }
  }
}
