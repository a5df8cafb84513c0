/**
 * The shared read-through cache: one store per namespace, entries that expire
 * at a fixed time, and `get_or_set`. A stored `None` reads as a miss. The
 * clock is a parameter in whole seconds, and the factory is modelled by the
 * answer it would give if called.
 */
module Cache {
  import opened Wrappers

  /** Entries expire one hour after they are written unless the caller says otherwise. */
  const DefaultExpire := 3600

  /** `get_cache(name)`: the namespace's directory under the per-user cache directory `base`. */
  function CacheDir(base: string, name: string): string {
    base + "/" + name
  }

  /** Distinct namespaces get distinct directories, so their keys never meet. */
  lemma CacheDirInjective(base: string, a: string, b: string)
    requires CacheDir(base, a) == CacheDir(base, b)
    ensures a == b
  {
    var n := |base| + 1;
    assert a == CacheDir(base, a)[n..];
    assert b == CacheDir(base, b)[n..];
  }

  /** A stored value (`None` is Python's `None`) with its expiry time, if any. */
  datatype Entry<V> = Entry(value: Option<V>, expireAt: Option<int>)

  /** An entry is served while it has no expiry time or the time has not yet come. */
  predicate Live<V>(e: Entry<V>, now: int) {
    e.expireAt.None? || now < e.expireAt.value
  }

  /** `cache.get(key)`: the stored value when the entry is live and not `None`. */
  function Get<V>(entries: map<string, Entry<V>>, key: string, now: int): (r: Option<V>)
    ensures r.Some? <==> key in entries && Live(entries[key], now) && entries[key].value.Some?
    ensures r.Some? ==> r == entries[key].value
  {
    if key in entries && Live(entries[key], now) then entries[key].value else None
  }

  /** The expiry time `cache.set(key, value, expire=expire)` records at `now`. */
  function ExpiryAt(now: int, expire: Option<int>): Option<int> {
    match expire
    case Some(d) => Some(now + d)
    case None => None
  }

  /** What a `get_or_set` call returns, whether it called the factory, and the entries afterwards. */
  datatype Outcome<V, E> = Outcome(result: Result<Option<V>, E>, called: bool, entries: map<string, Entry<V>>)

  /**
   * `get_or_set(cache, key, factory, expire)`: a live non-`None` value is
   * returned without calling the factory; otherwise the factory's answer is
   * returned, and stored when it is a value (a raised error stores nothing).
   */
  function GetOrSetSpec<V, E>(entries: map<string, Entry<V>>, key: string, produced: Result<Option<V>, E>, expire: Option<int>, now: int): (out: Outcome<V, E>)
    ensures Get(entries, key, now).Some? ==> out == Outcome(Success(Get(entries, key, now)), false, entries)
    ensures Get(entries, key, now).None? ==> out.called && out.result == produced
    ensures !out.called || produced.Failure? ==> out.entries == entries
    ensures out.result.Success? && (produced.Failure? || produced.value.Some?) ==> out.result.value.Some?
  {
    var value := Get(entries, key, now);
    if value.Some? then Outcome(Success(value), false, entries)
    else match produced
      case Failure(e) => Outcome(Failure(e), true, entries)
      case Success(v) => Outcome(Success(v), true, entries[key := Entry(v, ExpiryAt(now, expire))])
  }

  /**
   * After a miss whose factory gives a value, that value is served without
   * calling the factory until it expires, and not from then on.
   */
  lemma StoredValueServedUntilExpiry<V, E>(entries: map<string, Entry<V>>, key: string, v: V, d: int, now: int, later: int)
    requires Get(entries, key, now).None?
    ensures var out := GetOrSetSpec<V, E>(entries, key, Success(Some(v)), Some(d), now);
      Get(out.entries, key, later) == (if later < now + d then Some(v) else None)
  {
  }

  /** With the default expiry a value computed at `now` is served for exactly one hour. */
  lemma DefaultExpiryIsOneHour<V, E>(entries: map<string, Entry<V>>, key: string, v: V, now: int, later: int)
    requires Get(entries, key, now).None?
    ensures var out := GetOrSetSpec<V, E>(entries, key, Success(Some(v)), Some(DefaultExpire), now);
      Get(out.entries, key, later).Some? <==> later < now + 3600
  {
    StoredValueServedUntilExpiry<V, E>(entries, key, v, DefaultExpire, now, later);
  }

  /** A factory that returns `None` is called again on the next request. */
  lemma NoneIsRecomputed<V, E>(entries: map<string, Entry<V>>, key: string, expire: Option<int>, now: int, later: int, next: Result<Option<V>, E>)
    requires Get(entries, key, now).None?
    ensures var out := GetOrSetSpec<V, E>(entries, key, Success(None), expire, now);
      GetOrSetSpec(out.entries, key, next, expire, later).called
  {
    var out := GetOrSetSpec<V, E>(entries, key, Success(None), expire, now);
    assert out.entries[key].value.None?;
  }

  /** A factory that raises writes nothing, so the next request at the same time calls it again. */
  lemma FailureIsRetried<V, E>(entries: map<string, Entry<V>>, key: string, e: E, expire: Option<int>, now: int, next: Result<Option<V>, E>)
    requires Get(entries, key, now).None?
    ensures var out := GetOrSetSpec<V, E>(entries, key, Failure(e), expire, now);
      out.entries == entries && GetOrSetSpec(out.entries, key, next, expire, now).called
  {
  }

  /** A call never changes what another key reads. */
  lemma OtherKeysUntouched<V, E>(entries: map<string, Entry<V>>, key: string, produced: Result<Option<V>, E>, expire: Option<int>, now: int, other: string, later: int)
    requires other != key
    ensures Get(GetOrSetSpec(entries, key, produced, expire, now).entries, other, later) == Get(entries, other, later)
  {
  }

  /** One namespace's store. */
  class Store<V> {
    var entries: map<string, Entry<V>>

    constructor ()
      ensures entries == map[]
    {
      entries := map[];
    }

    /** `cache.get(key)` at time `now`. */
    function Lookup(key: string, now: int): Option<V>
      reads this
    {
      Get(entries, key, now)
    }

    /** `get_or_set`: `produced` is what the factory gives when called. */
    method GetOrSet<E>(key: string, produced: Result<Option<V>, E>, expire: Option<int>, now: int)
      returns (r: Result<Option<V>, E>, called: bool)
      modifies this
      ensures Outcome(r, called, entries) == GetOrSetSpec(old(entries), key, produced, expire, now)
    {
      var value := Get(entries, key, now);
      if value.Some? {
        return Success(value), false;
      }
      if produced.Failure? {
        return Failure(produced.error), true;
      }
      entries := entries[key := Entry(produced.value, ExpiryAt(now, expire))];
      r, called := produced, true;
    }
  }
}
