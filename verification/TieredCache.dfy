/**
 The two-tier cache: a map in each process before a shared Redis, both with
 expiry. First the operations of one process, then any number of processes
 working on one key at once.

 Times are milliseconds of one clock; TTLs are given in seconds. `edge` decides
 whether Redis still has a key at the very instant it expires.
 */
module TieredCache {
  import opened Options
  import RateLimit

  const DEFAULT_TTL_SECS: nat := 60

  datatype Entry = Entry(value: string, expiresAt: nat)

  type Tier = map<string, Entry>

  /** A local entry is gone at its expiry; nothing is served at that instant. */
  predicate LocalHit(local: Tier, k: string, now: nat) {
    k in local && now < local[k].expiresAt
  }

  predicate RedisHas(redis: Tier, k: string, now: nat, edge: bool) {
    k in redis && !RateLimit.Gone(redis[k].expiresAt, now, edge)
  }

  /** The TTL command: remaining seconds, rounded to the nearest. */
  function TtlSecs(expiresAt: nat, now: nat): nat
    requires now <= expiresAt
  {
    (expiresAt - now + 500) / 1000
  }

  /** How long a value fetched from Redis is kept locally: its remaining TTL, or a minute when that is zero. */
  function KeepSecs(expiresAt: nat, now: nat): (secs: nat)
    requires now <= expiresAt
    ensures secs > 0
  {
    if TtlSecs(expiresAt, now) > 0 then TtlSecs(expiresAt, now) else DEFAULT_TTL_SECS
  }

  /** What a read answers. */
  function Answer(local: Tier, redis: Tier, k: string, now: nat, edge: bool): Option<string> {
    if LocalHit(local, k, now) then Some(local[k].value)
    else if RedisHas(redis, k, now, edge) then Some(redis[k].value)
    else None
  }

  class Cache {
    var local: Tier
    var redis: Tier
    var clock: nat

    constructor ()
      ensures local == map[] && redis == map[] && clock == 0
    {
      local, redis, clock := map[], map[], 0;
    }

    /** `get`: an expired local entry is removed, a value found in Redis is kept locally. */
    method Get(k: string, edge: bool) returns (r: Option<string>)
      modifies this`local
      ensures r == Answer(old(local), redis, k, clock, edge)
      ensures local == if LocalHit(old(local), k, clock) then old(local)
                       else if RedisHas(redis, k, clock, edge)
                       then old(local)[k := Entry(redis[k].value, clock + KeepSecs(redis[k].expiresAt, clock) * 1000)]
                       else old(local) - {k}
    {
      if k in local && clock >= local[k].expiresAt {
        local := local - {k};
      } else if k in local {
        return Some(local[k].value);
      }
      if k in redis && !RateLimit.Gone(redis[k].expiresAt, clock, edge) {
        var v := redis[k].value;
        var ttlSecs := TtlSecs(redis[k].expiresAt, clock);
        var ttl := if ttlSecs > 0 then ttlSecs else DEFAULT_TTL_SECS;
        local := local[k := Entry(v, clock + ttl * 1000)];
        return Some(v);
      }
      return None;
    }

    /** `set`: both tiers, with the same TTL. */
    method Set(k: string, v: string, ttlSecs: nat)
      modifies this`local, this`redis
      ensures local == old(local)[k := Entry(v, clock + ttlSecs * 1000)]
      ensures redis == old(redis)[k := Entry(v, clock + ttlSecs * 1000)]
    {
      local := local[k := Entry(v, clock + ttlSecs * 1000)];
      redis := redis[k := Entry(v, clock + ttlSecs * 1000)];
    }

    method InvalidateLocal(k: string)
      modifies this`local
      ensures local == old(local) - {k}
    {
      local := local - {k};
    }

    /** `invalidate`: after it this process has no answer, in either tier. */
    method Invalidate(k: string)
      modifies this`local, this`redis
      ensures local == old(local) - {k} && redis == old(redis) - {k}
      ensures forall now: nat, edge :: Answer(local, redis, k, now, edge) == None
      ensures forall other: string, now: nat, edge | other != k ::
        Answer(local, redis, other, now, edge) == Answer(old(local), old(redis), other, now, edge)
    {
      local := local - {k};
      redis := redis - {k};
    }

    /** `evict_expired`: no answer changes, now or later. */
    method EvictExpired() returns (removed: nat)
      modifies this`local
      ensures forall k :: k in local <==> k in old(local) && old(local)[k].expiresAt > clock
      ensures forall k :: k in local ==> local[k] == old(local)[k]
      ensures removed == |old(local)| - |local|
      ensures forall k: string, now: nat, edge | now >= clock ::
        Answer(local, redis, k, now, edge) == Answer(old(local), redis, k, now, edge)
    {
      var kept := map k | k in local && local[k].expiresAt > clock :: local[k];
      KeptIsSmaller(kept, local);
      removed := |local| - |kept|;
      local := kept;
    }
  }

  lemma KeptIsSmaller(a: Tier, b: Tier)
    requires a.Keys <= b.Keys
    ensures |a| <= |b|
  {
    var rest := b.Keys - a.Keys;
    assert b.Keys == a.Keys + rest;
    assert |a.Keys| == |a| && |b.Keys| == |b|;
  }

  /** A copy made by a read outlives the Redis entry by half a second at most, or else by up to a minute. */
  lemma CopyOutlives(expiresAt: nat, now: nat)
    requires now <= expiresAt
    ensures var until := now + KeepSecs(expiresAt, now) * 1000;
      && until <= expiresAt + 60_000
      && (until > expiresAt + 500 <==> expiresAt - now < 500)
  {
  }
}
