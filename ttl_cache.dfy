/** The metadata cache: a map from URL to a stored value with the time it
    was stored, and a fixed time-to-live. A lookup of an entry whose time is
    up finds nothing and deletes the entry; a store overwrites. Times are
    milliseconds of the clock the cache reads. */
module TtlCache {

  import opened Wrappers

  /** The `stdTTL` the controller creates the cache with, in seconds. */
  const StdTtlSeconds: nat := 3600

  const StdTtlMillis: nat := StdTtlSeconds * 1000

  datatype Entry<V> = Entry(value: V, storedAt: nat)

  type Cache<V> = map<string, Entry<V>>

  /** An entry lives up to and including the instant `storedAt + 3600 s` and
      is expired at every later instant. */
  predicate Expired<V>(e: Entry<V>, now: nat) {
    e.storedAt + StdTtlMillis < now
  }

  datatype Lookup<V> = Lookup(found: Option<V>, after: Cache<V>)

  /** `cache.get(key)` at time `now`. */
  function Get<V>(c: Cache<V>, key: string, now: nat): Lookup<V> {
    if key in c && !Expired(c[key], now) then Lookup(Some(c[key].value), c)
    else Lookup(None, c - {key})
  }

  /** `cache.set(key, value)` at time `now`. */
  function Set<V>(c: Cache<V>, key: string, value: V, now: nat): Cache<V> {
    c[key := Entry(value, now)]
  }

  /** A lookup finds a value exactly when a live entry holds it, and then
      leaves the cache as it was; a lookup that finds nothing only drops the
      key. */
  lemma GetCases<V>(c: Cache<V>, key: string, now: nat)
    ensures Get(c, key, now).found.Some? <==> key in c && now <= c[key].storedAt + StdTtlMillis
    ensures Get(c, key, now).found.Some? ==>
      Get(c, key, now).found.value == c[key].value && Get(c, key, now).after == c
    ensures Get(c, key, now).found.None? ==> Get(c, key, now).after == c - {key}
  {
  }

  /** Round trip: what was stored is found again until its time is up. */
  lemma SetThenGet<V>(c: Cache<V>, key: string, value: V, storedAt: nat, now: nat)
    requires now <= storedAt + StdTtlMillis
    ensures Get(Set(c, key, value, storedAt), key, now).found == Some(value)
    ensures Get(Set(c, key, value, storedAt), key, now).after == Set(c, key, value, storedAt)
  {
  }

  /** Expiry: after the time-to-live the stored value is not found and the
      entry is gone. */
  lemma SetThenGetExpired<V>(c: Cache<V>, key: string, value: V, storedAt: nat, now: nat)
    requires storedAt + StdTtlMillis < now
    ensures Get(Set(c, key, value, storedAt), key, now).found == None
    ensures key !in Get(Set(c, key, value, storedAt), key, now).after
  {
  }

  /** Neither operation touches another key. */
  lemma OtherKeysUnchanged<V>(c: Cache<V>, key: string, value: V, now: nat, other: string)
    requires other != key
    ensures other in Set(c, key, value, now) <==> other in c
    ensures other in Get(c, key, now).after <==> other in c
    ensures other in c ==> Set(c, key, value, now)[other] == c[other]
    ensures other in c ==> Get(c, key, now).after[other] == c[other]
  {
  }

}
