/** The lock's operations as one process runs them: Redis keys and the local map change in place. */
module DistributedLocks {
  import opened Domain
  import opened LockProtocol

  type Resource = int

  /** The Redis server: its clock and its keys. */
  class Redis {
    var now: int
    var keys: map<Resource, Cell>

    constructor ()
      ensures now == 0 && keys == map[]
    {
      now, keys := 0, map[];
    }

    function Get(r: Resource): Cell
      reads this
    {
      if r in keys then keys[r] else Empty
    }
  }

  class DistributedLock {
    const redis: Redis
    var locks: map<Resource, Entry>

    constructor (redis: Redis)
      ensures this.redis == redis && locks == map[]
    {
      this.redis := redis;
      locks := map[];
    }

    /** The live key of the resource holds the token of the local entry. */
    ghost predicate Holds(r: Resource)
      reads this, redis
    {
      r in locks && Unexpired(redis.Get(r), redis.now) && redis.Get(r).token == locks[r].token
    }

    method TryAcquire(r: Resource, token: Token, ttl: int) returns (acquired: bool)
      requires ttl > 0
      modifies this`locks, redis`keys
      ensures acquired <==> !Unexpired(old(redis.Get(r)), redis.now)
      ensures acquired ==> Holds(r) && redis.keys == old(redis.keys)[r := Held(token, redis.now + ttl)]
      ensures acquired ==> locks == old(locks)[r := Entry(token, redis.now + ttl)]
      ensures !acquired ==> redis.keys == old(redis.keys) && locks == old(locks)
      ensures forall q :: q != r ==> redis.Get(q) == old(redis.Get(q))
    {
      var reply := SetIfAbsent(redis.Get(r), redis.now, token, ttl);
      acquired := reply.1;
      if acquired {
        redis.keys := redis.keys[r := reply.0];
        locks := locks[r := Entry(token, redis.now + ttl)];
      }
    }

    /** Succeeds exactly while this process still holds the key; a lost lock is forgotten. */
    method Renew(r: Resource, ttl: int) returns (renewed: bool)
      requires ttl > 0
      modifies this`locks, redis`keys
      ensures renewed <==> old(Holds(r))
      ensures renewed ==> Holds(r) && redis.keys == old(redis.keys)[r := Held(old(locks)[r].token, redis.now + ttl)]
      ensures renewed ==> locks == old(locks)[r := Entry(old(locks)[r].token, redis.now + ttl)]
      ensures !renewed ==> redis.keys == old(redis.keys) && locks == old(locks) - {r}
      ensures forall q :: q != r ==> redis.Get(q) == old(redis.Get(q)) && (q in locks <==> q in old(locks))
      ensures forall q :: q != r && q in locks ==> locks[q] == old(locks)[q]
    {
      if r !in locks {
        return false;
      }
      var entry := locks[r];
      var reply := ExtendIfHeld(redis.Get(r), redis.now, entry.token, ttl);
      renewed := reply.1;
      if renewed {
        redis.keys := redis.keys[r := reply.0];
        locks := locks[r := Entry(entry.token, redis.now + ttl)];
      } else {
        locks := locks - {r};
      }
    }

    /** Frees the key if this process still holds it, touches nothing otherwise, and forgets the lock. */
    method Release(r: Resource)
      modifies this`locks, redis`keys
      ensures locks == old(locks) - {r}
      ensures old(Holds(r)) ==> redis.keys == old(redis.keys)[r := Empty]
      ensures !old(Holds(r)) ==> redis.keys == old(redis.keys)
      ensures forall q :: q != r ==> redis.Get(q) == old(redis.Get(q)) && (q in locks <==> q in old(locks))
      ensures forall q :: q != r && q in locks ==> locks[q] == old(locks)[q]
    {
      if r in locks {
        var reply := DeleteIfHeld(redis.Get(r), redis.now, locks[r].token);
        if reply.1 {
          redis.keys := redis.keys[r := reply.0];
        }
        locks := locks - {r};
      }
    }

    /** While a callback runs, time passes and anyone may change any key, and this process any of its entries. */
    method Meanwhile(d: nat, keys: map<Resource, Cell>, entries: map<Resource, Entry>)
      modifies this`locks, redis
      ensures redis.now == old(redis.now) + d && redis.keys == keys && locks == entries
    {
      redis.now, redis.keys := redis.now + d, keys;
      locks := entries;
    }

    /**
     * The callback takes `d` time units and ends, normally or not, with the given keys and local entries. On the way
     * out the key is freed exactly if this process then still holds it, and no other key or entry changes.
     */
    method WithLock(r: Resource, token: Token, ttl: int, d: nat,
                    keys: map<Resource, Cell>, entries: map<Resource, Entry>)
      returns (ran: bool)
      requires ttl > 0
      modifies this`locks, redis
      ensures ran <==> !Unexpired(old(redis.Get(r)), old(redis.now))
      ensures !ran ==> redis.keys == old(redis.keys) && locks == old(locks) && redis.now == old(redis.now)
      ensures ran ==> redis.now == old(redis.now) + d && locks == entries - {r}
      ensures ran ==>
                var left := if r in keys then keys[r] else Empty;
                if r in entries && Unexpired(left, redis.now) && left.token == entries[r].token
                then redis.keys == keys[r := Empty] else redis.keys == keys
      ensures ran && keys == old(redis.keys)[r := Held(token, old(redis.now) + ttl)]
                && entries == old(locks)[r := Entry(token, old(redis.now) + ttl)] ==>
                !Unexpired(redis.Get(r), redis.now)
    {
      ran := TryAcquire(r, token, ttl);
      if ran {
        Meanwhile(d, keys, entries);
        Release(r);
      }
    }
  }
}
