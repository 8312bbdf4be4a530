/** Values, items and the meaning of every single-shard command, stated on the
    shard's item map as a pure value. The class in storage.dfy is proved
    against these functions; the lemmas here say what the commands promise. */
module StorageSpec {

  /** The stored value: a scalar string or a field map (a "hash"). */
  datatype Value = Scalar(str: string) | Fields(fields: map<string, string>)

  /** A stored item. An expiration of 0 means "never"; otherwise it is an
      absolute time in nanoseconds since the Unix epoch. */
  datatype Item = Item(value: Value, expiration: int)

  /** The only runtime error of the store; NoError stands for Go's nil. */
  datatype Error = NoError | ErrorWrongType

  /** A string result together with its error, as Get and Hget return them. */
  datatype Reply = Reply(val: string, err: Error)

  type Items = map<string, Item>

  /** Whether an item is past its stamp at time `now`; stamp 0 never expires. */
  predicate Expired(i: Item, now: int): (e: bool)
    ensures i.expiration == 0 ==> !e
  {
    i.expiration != 0 && now > i.expiration
  }

  /** An expired item stays expired at every later time. */
  lemma ExpiredStaysExpired(i: Item, now: int, later: int)
    requires Expired(i, now) && now <= later
    ensures Expired(i, later)
  {
  }

  /** The expiration stamp for a time-to-live given at time `now`. */
  function GetExpiration(ttl: int, now: int): (x: int)
    requires ttl >= 0
    ensures ttl == 0 ==> x == 0
    ensures ttl > 0 ==> x - now == ttl
    ensures ttl > 0 && now >= 0 ==> x != 0
  {
    if ttl > 0 then now + ttl else 0
  }

  predicate SameTag(a: Value, b: Value) {
    a.Scalar? == b.Scalar?
  }

  /** The keys a scan at time `now` reports. */
  ghost function LiveKeys(m: Items, now: int): set<string> {
    set k | k in m && !Expired(m[k], now)
  }

  /** The key holds a scalar, expired or not: Hset and Hdel refuse it. */
  predicate HoldsScalar(m: Items, key: string) {
    key in m && m[key].value.Scalar?
  }

  // ---- the commands -------------------------------------------------------

  function SetItems(m: Items, key: string, val: string, ttl: int, now: int): (r: Items)
    requires ttl >= 0
    ensures r.Keys == m.Keys + {key}
    ensures forall k :: k in m && k != key ==> r[k] == m[k]
  {
    m[key := Item(Scalar(val), GetExpiration(ttl, now))]
  }

  /** What Get reports for a live item holding v. */
  function ScalarReply(v: Value): Reply {
    match v
    case Scalar(s) => Reply(s, NoError)
    case Fields(_) => Reply("", ErrorWrongType)
  }

  function GetReply(m: Items, key: string, now: int): Reply {
    if key !in m || Expired(m[key], now) then Reply("", NoError)
    else ScalarReply(m[key].value)
  }

  /** Expire checks raw presence: an expired item that is still stored is
      given the new stamp too. */
  function ExpireItems(m: Items, key: string, exp: int): (r: Items)
    ensures r.Keys == m.Keys
    ensures forall k :: k in m && k != key ==> r[k] == m[k]
    ensures key in m ==> r[key].value == m[key].value && r[key].expiration == exp
  {
    if key in m then m[key := m[key].(expiration := exp)] else m
  }

  function RemoveItems(m: Items, key: string): (r: Items)
    ensures r.Keys == m.Keys - {key}
    ensures forall k :: k in r ==> r[k] == m[k]
  {
    m - {key}
  }

  function HgetReply(m: Items, key: string, field: string, now: int): Reply {
    if key !in m || Expired(m[key], now) then Reply("", NoError)
    else match m[key].value
      case Scalar(_) => Reply("", ErrorWrongType)
      case Fields(f) => Reply(if field in f then f[field] else "", NoError)
  }

  /** The error Hset and Hdel report. */
  function FieldWriteError(m: Items, key: string): (e: Error)
    ensures e == ErrorWrongType <==> HoldsScalar(m, key)
  {
    if key in m && m[key].value.Scalar? then ErrorWrongType else NoError
  }

  function HsetItems(m: Items, key: string, field: string, val: string): (r: Items)
    ensures r.Keys == m.Keys + {key}
    ensures forall k :: k in m && k != key ==> r[k] == m[k]
    ensures HoldsScalar(m, key) ==> r == m
    ensures key in m ==> SameTag(r[key].value, m[key].value) && r[key].expiration == m[key].expiration
    ensures key !in m ==> r[key] == Item(Fields(map[field := val]), 0)
  {
    if key !in m then m[key := Item(Fields(map[field := val]), 0)]
    else match m[key].value
      case Scalar(_) => m
      case Fields(f) => m[key := m[key].(value := Fields(f[field := val]))]
  }

  function HdelItems(m: Items, key: string, field: string): (r: Items)
    ensures r.Keys == m.Keys
    ensures forall k :: k in m && k != key ==> r[k] == m[k]
    ensures HoldsScalar(m, key) || key !in m ==> r == m
    ensures key in m ==> SameTag(r[key].value, m[key].value) && r[key].expiration == m[key].expiration
  {
    if key !in m then m
    else match m[key].value
      case Scalar(_) => m
      case Fields(f) => m[key := m[key].(value := Fields(f - {field}))]
  }

  /** What one pass of the background cleaner leaves behind. */
  function Sweep(m: Items, now: int): (r: Items)
    ensures forall k :: k in r <==> k in m && !Expired(m[k], now)
    ensures forall k :: k in r ==> r[k] == m[k]
  {
    map k | k in m && !Expired(m[k], now) :: m[k]
  }

  // ---- properties -----------------------------------------------------------

  /** An item stamped with ttl at time `now` (after the epoch) is expired at
      time t exactly when ttl is positive and more than ttl has elapsed; ttl 0
      never expires. */
  lemma ExpiresExactlyAfterTtl(v: Value, ttl: int, now: int, t: int)
    requires ttl >= 0 && now >= 0
    ensures Expired(Item(v, GetExpiration(ttl, now)), t) <==> ttl > 0 && t - now > ttl
  {
  }

  /** Set followed by Get returns the value until it expires, whatever the key
      held before (scalar, field map or nothing). */
  lemma SetThenGet(m: Items, key: string, val: string, ttl: int, now: int, t: int)
    requires ttl >= 0 && now >= 0
    ensures GetReply(SetItems(m, key, val, ttl, now), key, t)
         == if ttl > 0 && t - now > ttl then Reply("", NoError) else Reply(val, NoError)
  {
    ExpiresExactlyAfterTtl(Scalar(val), ttl, now, t);
  }

  /** After Set the key holds a scalar, so every field command reports
      ErrorWrongType while it is live, and Hset and Hdel refuse it. */
  lemma SetThenFieldCommands(m: Items, key: string, val: string, ttl: int, now: int, field: string, t: int)
    requires ttl >= 0 && now >= 0
    ensures ttl == 0 || t - now <= ttl ==>
              HgetReply(SetItems(m, key, val, ttl, now), key, field, t) == Reply("", ErrorWrongType)
    ensures FieldWriteError(SetItems(m, key, val, ttl, now), key) == ErrorWrongType
  {
    ExpiresExactlyAfterTtl(Scalar(val), ttl, now, t);
  }

  /** Remove leaves the key absent to every read, and a second Remove changes nothing. */
  lemma RemoveThenRead(m: Items, key: string, field: string, t: int)
    ensures GetReply(RemoveItems(m, key), key, t) == Reply("", NoError)
    ensures HgetReply(RemoveItems(m, key), key, field, t) == Reply("", NoError)
    ensures RemoveItems(RemoveItems(m, key), key) == RemoveItems(m, key)
  {
  }

  /** Hset followed by Hget of the same field returns the value, when the key
      did not hold a scalar and its item is live at the time of reading. */
  lemma HsetThenHget(m: Items, key: string, field: string, val: string, t: int)
    requires !HoldsScalar(m, key)
    requires key in m ==> !Expired(m[key], t)
    ensures HgetReply(HsetItems(m, key, field, val), key, field, t) == Reply(val, NoError)
  {
  }

  /** Hset leaves every other field as it was and a second Hset to the same
      field overwrites the first. */
  lemma HsetOtherFieldsAndOverwrite(m: Items, key: string, field: string, other: string, v1: string, v2: string, t: int)
    requires other != field
    ensures HgetReply(HsetItems(m, key, field, v1), key, other, t) == HgetReply(m, key, other, t)
    ensures HsetItems(HsetItems(m, key, field, v1), key, field, v2) == HsetItems(m, key, field, v2)
  {
    if key !in m {
      assert map[field := v1][field := v2] == map[field := v2];
    } else if m[key].value.Fields? {
      var f := m[key].value.fields;
      assert f[field := v1][field := v2] == f[field := v2];
    }
  }

  /** After a successful Hset the key holds a field map, so Get reports
      ErrorWrongType while it is live. */
  lemma HsetThenGet(m: Items, key: string, field: string, val: string, t: int)
    requires !HoldsScalar(m, key)
    requires key in m ==> !Expired(m[key], t)
    ensures GetReply(HsetItems(m, key, field, val), key, t) == Reply("", ErrorWrongType)
  {
  }

  /** Hdel makes the field read as absent, keeps every other field, and is
      idempotent. */
  lemma HdelThenHget(m: Items, key: string, field: string, other: string, t: int)
    requires !HoldsScalar(m, key)
    requires other != field
    ensures HgetReply(HdelItems(m, key, field), key, field, t) == Reply("", NoError)
    ensures HgetReply(HdelItems(m, key, field), key, other, t) == HgetReply(m, key, other, t)
    ensures HdelItems(HdelItems(m, key, field), key, field) == HdelItems(m, key, field)
  {
    if key in m && m[key].value.Fields? {
      var f := m[key].value.fields;
      assert f - {field} - {field} == f - {field};
    }
  }

  /** Expire on a present key decides alone when Get stops seeing it, even
      for an item that had expired but was not yet swept: with ttl 0 it
      becomes live for good. */
  lemma ExpireThenGet(m: Items, key: string, ttl: int, now: int, t: int)
    requires key in m && ttl >= 0 && now >= 0
    ensures GetReply(ExpireItems(m, key, GetExpiration(ttl, now)), key, t)
         == if ttl > 0 && t - now > ttl then Reply("", NoError) else ScalarReply(m[key].value)
  {
    ExpiresExactlyAfterTtl(m[key].value, ttl, now, t);
  }

  /** The sweep is invisible to reads made at the same time. */
  lemma SweepInvisible(m: Items, now: int, key: string, field: string)
    ensures LiveKeys(Sweep(m, now), now) == LiveKeys(m, now)
    ensures GetReply(Sweep(m, now), key, now) == GetReply(m, key, now)
    ensures HgetReply(Sweep(m, now), key, field, now) == HgetReply(m, key, field, now)
  {
  }

  // ---- sequences without duplicates ------------------------------------------

  predicate NoDuplicates(s: seq<string>) {
    forall i, j :: 0 <= i < j < |s| ==> s[i] != s[j]
  }

  /** A duplicate-free sequence that enumerates a set has that set's multiset. */
  lemma {:induction false} EnumerationMultiset(s: seq<string>, S: set<string>)
    requires NoDuplicates(s)
    requires forall x :: x in s <==> x in S
    ensures multiset(s) == multiset(S)
  {
    if s == [] {
      assert S == {};
    } else {
      var last := s[|s| - 1];
      var init := s[..|s| - 1];
      assert s == init + [last];
      assert last !in init by {
        forall i | 0 <= i < |init| ensures init[i] != last { assert s[i] != s[|s| - 1]; }
      }
      forall x | x in init ensures x in S - {last} {
        var i :| 0 <= i < |init| && init[i] == x;
        assert s[i] == x;
      }
      forall x | x in S - {last} ensures x in init {
        assert x in s;
        var i :| 0 <= i < |s| && s[i] == x;
        assert init[i] == x;
      }
      EnumerationMultiset(init, S - {last});
      assert S == (S - {last}) + {last};
      assert multiset(S) == multiset(S - {last}) + multiset{last} by {
        forall x ensures multiset(S)[x] == (multiset(S - {last}) + multiset{last})[x] { }
      }
    }
  }

  /** A value at two positions of a sequence occurs at least twice in its multiset. */
  lemma RepeatedValueCount(s: seq<string>, i: int, j: int)
    requires 0 <= i < j < |s| && s[i] == s[j]
    ensures multiset(s)[s[i]] >= 2
  {
    assert s == s[..j] + s[j..];
    assert s[i] in s[..j];
    assert s[j] in s[j..];
  }

  /** Conversely, a sequence with a set's multiset enumerates it without duplicates. */
  lemma SetMultisetEnumeration(s: seq<string>, S: set<string>)
    requires multiset(s) == multiset(S)
    ensures NoDuplicates(s)
    ensures forall x :: x in s <==> x in S
  {
    forall x ensures x in s <==> x in S {
      assert x in s <==> x in multiset(s);
    }
    forall i, j | 0 <= i < j < |s| ensures s[i] != s[j] {
      if s[i] == s[j] {
        RepeatedValueCount(s, i, j);
      }
    }
  }
}
