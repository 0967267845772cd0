/**
 An expiring cache that purges lazily: only some operations sweep, and only when the clean-up time has passed. Next to
 the real table a plain one is kept that never purges; look-ups answer as if only that one existed.
 */
module CacheMap {

  import opened Wrappers

  datatype Item<V> = Item(value: V, expiry: int)

  predicate Expired<V>(item: Item<V>, now: int) {
    now > item.expiry
  }

  /** A look-up in a plain table with expiry times. */
  function Lookup<K, V>(table: map<K, Item<V>>, key: K, default: V, now: int): V {
    if key in table && !Expired(table[key], now) then table[key].value else default
  }

  /** The lazily purged table may lack entries, but only expired ones. */
  ghost predicate Agree<K, V>(lazy: map<K, Item<V>>, plain: map<K, Item<V>>, now: int) {
    && (forall k | k in lazy :: k in plain && plain[k] == lazy[k])
    && (forall k | k in plain && k !in lazy :: Expired(plain[k], now))
  }

  // ----- whole runs

  /** `Sweep` removes some keys at some time; the environment chooses when and which of the expired ones. */
  datatype Op<K, V> =
    | Put(key: K, item: Item<V>, at: int)
    | Remove(key: K, at: int)
    | Clear(at: int)
    | Get(key: K, default: V, at: int)
    | Sweep(gone: set<K>, at: int)

  function PlainStep<K, V>(table: map<K, Item<V>>, op: Op<K, V>): map<K, Item<V>> {
    match op
    case Put(key, item, _) => table[key := item]
    case Remove(key, _) => table - {key}
    case Clear(_) => map[]
    case Get(_, _, _) => table
    case Sweep(_, _) => table
  }

  /**
   What a look-up finds: the value put last under the key, until its expiry time has passed, and the default when it has,
   when the key was removed or everything cleared since, or when nothing was ever put there. Other operations and other
   keys do not matter.
   */
  lemma LookupFindsTheLastPut<K, V>(ops: seq<Op<K, V>>, op: Op<K, V>, key: K, default: V, now: int)
    ensures Lookup(Plain<K, V>([]), key, default, now) == default
    ensures var before, after := Lookup(Plain(ops), key, default, now), Lookup(Plain(ops + [op]), key, default, now);
            match op
            case Put(k, item, _) =>
              after == if k != key then before else if now <= item.expiry then item.value else default
            case Remove(k, _) => after == if k != key then before else default
            case Clear(_) => after == default
            case _ => after == before
  {
    assert (ops + [op])[..|ops|] == ops;
  }

  function LazyStep<K, V>(table: map<K, Item<V>>, op: Op<K, V>): map<K, Item<V>> {
    match op
    case Sweep(gone, _) => table - gone
    case _ => PlainStep(table, op)
  }

  function Plain<K, V>(ops: seq<Op<K, V>>): map<K, Item<V>> {
    if ops == [] then map[] else PlainStep(Plain(ops[..|ops| - 1]), ops[|ops| - 1])
  }

  function Lazy<K, V>(ops: seq<Op<K, V>>): map<K, Item<V>> {
    if ops == [] then map[] else LazyStep(Lazy(ops[..|ops| - 1]), ops[|ops| - 1])
  }

  /** The clock does not run backwards and a sweep removes nothing that has not expired. */
  ghost predicate Legal<K, V>(ops: seq<Op<K, V>>) {
    && (forall i, j | 0 <= i <= j < |ops| :: ops[i].at <= ops[j].at)
    && (forall i | 0 <= i < |ops| && ops[i].Sweep? ::
          forall k | k in ops[i].gone && k in Lazy(ops[..i]) :: Expired(Lazy(ops[..i])[k], ops[i].at))
  }

  lemma {:induction false} TablesAgree<K, V>(ops: seq<Op<K, V>>, now: int)
    requires Legal(ops)
    requires forall i | 0 <= i < |ops| :: ops[i].at <= now
    ensures Agree(Lazy(ops), Plain(ops), now)
  {
    if ops != [] {
      var init, last := ops[..|ops| - 1], ops[|ops| - 1];
      forall i | 0 <= i < |init| && init[i].Sweep?
        ensures forall k | k in init[i].gone && k in Lazy(init[..i]) :: Expired(Lazy(init[..i])[k], init[i].at)
      {
        assert ops[..i] == init[..i];
      }
      TablesAgree(init, last.at);
    }
  }

  /**
   Lazy clean-up is invisible: in every legal run, under every schedule of sweeps, each look-up answers as the plain
   table that never purges.
   */
  lemma CleanUpIsInvisible<K, V>(ops: seq<Op<K, V>>, i: nat)
    requires Legal(ops) && i < |ops| && ops[i].Get?
    ensures Lookup(Lazy(ops[..i]), ops[i].key, ops[i].default, ops[i].at) ==
            Lookup(Plain(ops[..i]), ops[i].key, ops[i].default, ops[i].at)
  {
    var init := ops[..i];
    forall j | 0 <= j < |init| && init[j].Sweep?
      ensures forall k | k in init[j].gone && k in Lazy(init[..j]) :: Expired(Lazy(init[..j])[k], init[j].at)
    {
      assert ops[..j] == init[..j];
    }
    TablesAgree(init, ops[i].at);
  }

  // ----- the cache itself

  /** steady_clock::now(): some time passes between two readings. */
  class Clock {
    var now: int

    constructor (now: int)
      ensures this.now == now
    {
      this.now := now;
    }

    method Now() returns (t: int)
      modifies this
      ensures old(now) <= now && t == now
    {
      var later :| later >= now;
      now := later;
      t := now;
    }
  }

  /** The interval between two sweeps, in nanoseconds (one minute). */
  const CLEAN_UP_INTERVAL := 60_000_000_000

  class Cache<K(==), V> {
    const clock: Clock
    var cache: map<K, Item<V>>
    var cleanUpTime: int
    ghost var plain: map<K, Item<V>>

    ghost predicate Valid()
      reads this, clock
    {
      Agree(cache, plain, clock.now)
    }

    constructor (clock: Clock)
      ensures this.clock == clock && Valid() && plain == map[] && cleanUpTime == 0
    {
      this.clock := clock;
      cache, plain := map[], map[];
      cleanUpTime := 0;
    }

    method IsExpired(item: Item<V>) returns (r: bool)
      modifies clock
      ensures old(clock.now) <= clock.now && r == Expired(item, clock.now)
    {
      var t := clock.Now();
      r := t > item.expiry;
    }

    /**
     A sweep never touches the plain table and removes nothing but expired entries; one that is due by the time of the
     call removes every entry that has expired by then and is not due again for the interval.
     */
    method CleanUp()
      requires Valid()
      modifies this`cache, this`cleanUpTime, clock
      ensures Valid() && old(clock.now) <= clock.now
      ensures forall k | k in cache :: k in old(cache) && cache[k] == old(cache)[k]
      ensures forall k | k in old(cache) && k !in cache :: Expired(old(cache)[k], clock.now)
      ensures old(clock.now) > old(cleanUpTime) ==>
                && (forall k | k in cache :: !Expired(cache[k], old(clock.now)))
                && cleanUpTime >= old(clock.now) + CLEAN_UP_INTERVAL
      ensures cleanUpTime != old(cleanUpTime) ==> old(cleanUpTime) < cleanUpTime <= clock.now + CLEAN_UP_INTERVAL
      ensures cleanUpTime == old(cleanUpTime) ==> cache == old(cache)
      ensures cache != old(cache) ==> old(cleanUpTime) < clock.now
    {
      var t := clock.Now();
      if t > cleanUpTime {
        t := clock.Now();
        cleanUpTime := t + CLEAN_UP_INTERVAL;
        ghost var due := cleanUpTime;
        var keys := cache.Keys;
        while keys != {}
          invariant keys <= cache.Keys
          invariant old(clock.now) <= clock.now
          invariant Valid()
          invariant cleanUpTime == due <= clock.now + CLEAN_UP_INTERVAL
          invariant forall k | k in cache && k !in keys :: !Expired(cache[k], old(clock.now))
          invariant forall k | k in cache :: k in old(cache) && cache[k] == old(cache)[k]
          invariant forall k | k in old(cache) && k !in cache :: Expired(old(cache)[k], clock.now)
          decreases keys
        {
          var key :| key in keys;
          keys := keys - {key};
          var expired := IsExpired(cache[key]);
          if expired {
            cache := cache - {key};
          }
        }
      }
    }

    method Put(key: K, value: V, lifetime: int) returns (ghost item: Item<V>)
      requires Valid()
      modifies this, clock
      ensures Valid() && old(clock.now) <= clock.now
      ensures item.value == value && old(clock.now) + lifetime <= item.expiry <= clock.now + lifetime
      ensures plain == PlainStep(old(plain), Op.Put(key, item, clock.now))
      ensures key in cache ==> cache[key] == item
      ensures key !in cache ==> old(cleanUpTime) < clock.now && Expired(item, clock.now)
      ensures lifetime < 0 && old(clock.now) > old(cleanUpTime) ==> key !in cache
    {
      var t := clock.Now();
      item := Item(value, t + lifetime);
      cache := cache[key := Item(value, t + lifetime)];
      plain := plain[key := item];
      CleanUp();
    }

    method Get(key: K, default: V) returns (value: V)
      requires Valid()
      modifies clock
      ensures Valid() && old(clock.now) <= clock.now
      ensures value == Lookup(plain, key, default, clock.now)
    {
      if key in cache {
        var expired := IsExpired(cache[key]);
        if !expired {
          return cache[key].value;
        }
      }
      return default;
    }

    /**
     A look-up that stores its default when it finds nothing. None stands for reading a missing entry: the sweep that
     follows the insertion may already remove the new entry. That takes a sweep that is due and a lifetime that is over
     by then; with a negative lifetime and a sweep that is due at the call it is certain.
     */
    method GetOrPut(key: K, default: V, lifetime: int)
      returns (value: Option<V>, ghost stored: bool, ghost item: Item<V>)
      requires Valid()
      modifies this, clock
      ensures Valid() && old(clock.now) <= clock.now
      ensures !stored ==> plain == old(plain) && key in plain && !Expired(plain[key], old(clock.now))
      ensures stored ==>
                && (key !in old(plain) || Expired(old(plain)[key], clock.now))
                && item.value == default && old(clock.now) + lifetime <= item.expiry
                && plain == PlainStep(old(plain), Op.Put(key, item, clock.now))
      ensures value.Some? ==> value.value == plain[key].value
      ensures value.None? ==> stored && Expired(item, clock.now) && old(cleanUpTime) < clock.now
      ensures stored && lifetime < 0 && old(clock.now) > old(cleanUpTime) ==> value.None?
    {
      var missing := key !in cache;
      if !missing {
        missing := IsExpired(cache[key]);
      }
      stored := missing;
      if missing {
        item := Put(key, default, lifetime);
      } else {
        item := cache[key];
      }
      if key !in cache {
        return None, stored, item;
      }
      value := Some(cache[key].value);
    }

    method Remove(key: K)
      requires Valid()
      modifies this, clock
      ensures Valid() && old(clock.now) <= clock.now
      ensures plain == PlainStep(old(plain), Op.Remove(key, clock.now))
    {
      if key in cache {
        cache := cache - {key};
      }
      plain := plain - {key};
      CleanUp();
    }

    /** Unlike the other changes, clearing does not sweep. */
    method Clear()
      modifies this`cache, this`plain
      ensures Valid() && plain == map[]
    {
      cache, plain := map[], map[];
    }
  }

  /** The look-up does read a missing entry: a fresh cache, a default that expires at once. */
  method MissingEntryIsRead<K(==), V>(key: K, default: V) returns (value: Option<V>)
    ensures value.None?
  {
    var clock := new Clock(1);
    var cache := new Cache<K, V>(clock);
    ghost var stored, item;
    value, stored, item := cache.GetOrPut(key, default, -1);
  }
}
