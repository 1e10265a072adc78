/**
 * The shared key-value store both rate limiters talk to, reduced to the
 * primitives they use: integer counters (INCR), sorted sets (ZADD, ZCARD,
 * ZREM, ZREMRANGEBYSCORE) and key expiry (EXPIRE). Each method is one atomic
 * store command. A sorted set is a map from member to score; as in the store,
 * a set that loses its last member ceases to exist.
 */
module KeyValueStore {

  /** The value of a counter, 0 when the key does not exist. */
  function CounterValue(counters: map<string, int>, key: string): int {
    if key in counters then counters[key] else 0
  }

  /** The members of a sorted set, empty when the key does not exist. */
  function Members(zsets: map<string, map<string, int>>, key: string): map<string, int> {
    if key in zsets then zsets[key] else map[]
  }

  /** Every sorted set other than `key`'s is the same in both stores. */
  ghost predicate SameElsewhere(z1: map<string, map<string, int>>, z2: map<string, map<string, int>>, key: string) {
    forall k :: k != key ==> Members(z1, k) == Members(z2, k)
  }

  lemma SameElsewhereTrans(z1: map<string, map<string, int>>, z2: map<string, map<string, int>>, z3: map<string, map<string, int>>, key: string)
    requires SameElsewhere(z1, z2, key) && SameElsewhere(z2, z3, key)
    ensures SameElsewhere(z1, z3, key)
  {
  }

  /** Stores `m` under `key`, deleting the key when `m` is empty. */
  function StoreSet(zsets: map<string, map<string, int>>, key: string, m: map<string, int>): (r: map<string, map<string, int>>)
    ensures Members(r, key) == m
    ensures SameElsewhere(r, zsets, key)
    ensures (forall k :: k in zsets ==> zsets[k] != map[]) ==> forall k :: k in r ==> r[k] != map[]
  {
    if m == map[] then zsets - {key} else zsets[key := m]
  }

  /** Members whose score lies outside the closed range `[min, max]`. */
  function OutsideRange(m: map<string, int>, min: int, max: int): (r: map<string, int>)
    ensures r.Keys <= m.Keys
    ensures forall x :: x in r ==> r[x] == m[x] && !(min <= m[x] <= max)
    ensures forall x :: x in m && !(min <= m[x] <= max) ==> x in r
  {
    map x | x in m && !(min <= m[x] <= max) :: m[x]
  }

  /** `m` without `member`. */
  function Without(m: map<string, int>, member: string): (r: map<string, int>)
    ensures r.Keys == m.Keys - {member}
    ensures forall x :: x in r ==> r[x] == m[x]
  {
    m - {member}
  }

  class Redis {
    var counters: map<string, int>
    var zsets: map<string, map<string, int>>
    /** Expiry in seconds most recently set on each key. */
    var ttl: map<string, nat>

    /** Every stored sorted set holds at least one member. */
    ghost predicate Valid()
      reads this
    {
      forall k :: k in zsets ==> zsets[k] != map[]
    }

    constructor ()
      ensures Valid()
      ensures counters == map[] && zsets == map[] && ttl == map[]
    {
      counters, zsets, ttl := map[], map[], map[];
    }

    /** INCR: adds one to the counter (a missing counter counts as 0) and returns the new value. */
    method Incr(key: string) returns (v: int)
      requires Valid()
      modifies this
      ensures Valid()
      ensures v == CounterValue(old(counters), key) + 1
      ensures counters == old(counters)[key := v]
      ensures zsets == old(zsets) && ttl == old(ttl)
    {
      v := CounterValue(counters, key) + 1;
      counters := counters[key := v];
    }

    /** EXPIRE: sets the key's expiry; a key that does not exist is left alone. */
    method Expire(key: string, seconds: nat)
      requires Valid()
      modifies this
      ensures Valid()
      ensures ttl == if key in old(counters) || key in old(zsets) then old(ttl)[key := seconds] else old(ttl)
      ensures counters == old(counters) && zsets == old(zsets)
    {
      if key in counters || key in zsets {
        ttl := ttl[key := seconds];
      }
    }

    /** ZREMRANGEBYSCORE: removes the members whose score lies in `[min, max]`. */
    method ZRemRangeByScore(key: string, min: int, max: int)
      requires Valid()
      modifies this
      ensures Valid()
      ensures zsets == StoreSet(old(zsets), key, OutsideRange(Members(old(zsets), key), min, max))
      ensures Members(zsets, key) == OutsideRange(Members(old(zsets), key), min, max)
      ensures SameElsewhere(zsets, old(zsets), key)
      ensures counters == old(counters) && ttl == old(ttl)
    {
      zsets := StoreSet(zsets, key, OutsideRange(Members(zsets, key), min, max));
    }

    /** ZCARD: the number of members, 0 for a missing key. */
    method ZCard(key: string) returns (n: nat)
      requires Valid()
      ensures n == |Members(zsets, key)|
    {
      n := |Members(zsets, key)|;
    }

    /** ZADD: adds the member with the given score, or moves an existing member to that score. */
    method ZAdd(key: string, score: int, member: string)
      requires Valid()
      modifies this
      ensures Valid()
      ensures zsets == old(zsets)[key := Members(old(zsets), key)[member := score]]
      ensures Members(zsets, key) == Members(old(zsets), key)[member := score] && key in zsets
      ensures SameElsewhere(zsets, old(zsets), key)
      ensures counters == old(counters) && ttl == old(ttl)
    {
      var m := Members(zsets, key)[member := score];
      assert member in m;
      zsets := zsets[key := m];
    }

    /** ZREM: removes the member if present. */
    method ZRem(key: string, member: string)
      requires Valid()
      modifies this
      ensures Valid()
      ensures zsets == StoreSet(old(zsets), key, Without(Members(old(zsets), key), member))
      ensures Members(zsets, key) == Without(Members(old(zsets), key), member)
      ensures SameElsewhere(zsets, old(zsets), key)
      ensures counters == old(counters) && ttl == old(ttl)
    {
      zsets := StoreSet(zsets, key, Without(Members(zsets, key), member));
    }
  }
}
