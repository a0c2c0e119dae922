/** The pool table of a connection, one pool per channel. */
module PoolTables {
  import opened Wire
  import opened Pools

  const POOL_TABLE_SIZE := 16

  /** A bucket of the pool table: entries are only ever put in front. */
  datatype Chain = End | Entry(channel: uint16, pool: Pool, next: Chain)

  function Find(chain: Chain, channel: uint16): (p: Pool?) {
    match chain
    case End => null
    case Entry(c, pool, next) => if c == channel then pool else Find(next, channel)
  }

  class PoolTable {
    const buckets: array<Chain>
    const frameMax: nat
    ghost var owned: map<uint16, Pool>

    /** The table finds exactly the owned pools, each in the bucket of its channel. */
    ghost predicate Valid()
      reads this, buckets
    {
      && buckets.Length == POOL_TABLE_SIZE
      && (forall c: uint16 :: Find(buckets[c % POOL_TABLE_SIZE], c) == if c in owned then owned[c] else null)
      && (forall c, d :: c in owned && d in owned && c != d ==> owned[c] != owned[d])
    }

    constructor (frameMax: nat)
      ensures Valid() && owned == map[] && fresh(buckets) && this.frameMax == frameMax
    {
      this.frameMax := frameMax;
      buckets := new Chain[POOL_TABLE_SIZE](_ => End);
      owned := map[];
    }

    /** amqp_get_channel_pool */
    method GetPool(channel: uint16) returns (pool: Pool?)
      requires Valid()
      ensures pool == if channel in owned then owned[channel] else null
    {
      var entry := buckets[channel % POOL_TABLE_SIZE];
      while entry.Entry?
        invariant Find(entry, channel) == Find(buckets[channel % POOL_TABLE_SIZE], channel)
        decreases entry
      {
        if channel == entry.channel {
          return entry.pool;
        }
        entry := entry.next;
      }
      return null;
    }

    /** Puts a pool in front of the bucket of its channel. */
    method InsertEntry(channel: uint16, pool: Pool)
      requires Valid() && channel !in owned && pool !in owned.Values
      modifies this`owned, buckets
      ensures Valid() && owned == old(owned)[channel := pool]
    {
      var index := channel % POOL_TABLE_SIZE;
      buckets[index] := Entry(channel, pool, buckets[index]);
      owned := owned[channel := pool];
    }

    /** amqp_get_or_create_channel_pool: one pool per channel, created empty and never replaced. */
    method GetOrCreatePool(channel: uint16) returns (pool: Pool)
      requires Valid()
      modifies this`owned, buckets
      ensures Valid() && channel in owned && pool == owned[channel]
      ensures if channel in old(owned) then owned == old(owned)
              else
                && owned == old(owned)[channel := pool] && fresh(pool)
                && pool.Valid() && pool.live == [] && pool.pages == []
                && pool.pagesize == if frameMax == 0 then 4096 else frameMax
    {
      var found := GetPool(channel);
      if found != null {
        return found;
      }
      pool := new Pool(frameMax);
      InsertEntry(channel, pool);
    }

    /** amqp_maybe_release_buffers_on_channel: the pool of a channel is recycled exactly when the
        connection is between two frames and no queued frame is on that channel. */
    method MaybeRelease(idle: bool, queued: seq<uint16>, channel: uint16)
      requires Valid() && (channel in owned ==> owned[channel].Valid())
      modifies if channel in owned then {owned[channel]} else {}
      ensures channel in owned ==>
                && owned[channel].Valid()
                && owned[channel].Shot() == if idle && channel !in queued then Recycled(old(owned[channel].Shot()))
                                            else old(owned[channel].Shot())
    {
      if !idle {
        return;
      }
      var i := 0;
      while i < |queued|
        invariant i <= |queued| && channel !in queued[..i]
      {
        if channel == queued[i] {
          return;
        }
        i := i + 1;
      }
      var pool := GetPool(channel);
      if pool != null {
        pool.Recycle();
      }
    }

    /** In the course of a walk: the pools in `done` have been recycled, the others are as `before`. */
    ghost predicate Underway(before: map<uint16, Snapshot>, done: set<uint16>)
      reads this, owned.Values
    {
      before.Keys == owned.Keys && forall c :: c in owned ==>
        owned[c].Valid() && owned[c].Shot() == if c in done then Recycled(before[c]) else before[c]
    }

    lemma WalkBegins(before: map<uint16, Snapshot>)
      requires forall c :: c in owned ==> owned[c].Valid()
      requires before == map c | c in owned :: owned[c].Shot()
      ensures Underway(before, {})
    {
      hide Pool.Valid, Pool.Shot;
    }

    lemma WalkEnds(before: map<uint16, Snapshot>, done: set<uint16>, queued: seq<uint16>)
      requires Underway(before, done) && forall q :: q in queued ==> q !in done
      requires forall c :: c in owned.Keys - (set q | q in queued) ==> c in done
      ensures before.Keys == owned.Keys && forall c :: c in owned ==>
                owned[c].Valid() && owned[c].Shot() == if c !in queued then Recycled(before[c]) else before[c]
    {
      hide Pool.Valid, Pool.Shot, Recycled;
    }

    /** One step of the walk. */
    method ReleaseOne(queued: seq<uint16>, channel: uint16,
                      ghost before: map<uint16, Snapshot>, ghost done: set<uint16>)
      requires Valid() && Underway(before, done)
      modifies if channel in owned then {owned[channel]} else {}
      ensures Underway(before, if channel in queued then done else done + {channel})
    {
      hide Pool.Valid, Pool.Shot, Recycled;
      if channel in owned {
        RecycledTwice(before[channel]);
      }
      MaybeRelease(true, queued, channel);
    }

    /** amqp_release_buffers, called between two frames: the walk over all buckets recycles the pool
        of every channel without a queued frame, and no other. */
    method ReleaseBuffers(queued: seq<uint16>)
      requires Valid() && forall c :: c in owned ==> owned[c].Valid()
      modifies owned.Values
      ensures forall c :: c in owned ==>
                owned[c].Valid() && owned[c].Shot() == if c !in queued then Recycled(old(owned[c].Shot()))
                                                       else old(owned[c].Shot())
    {
      hide Pool.Valid, Pool.Shot, Recycled, Underway;
      ghost var before := map c | c in owned :: owned[c].Shot();
      WalkBegins(before);
      ghost var todo, done := owned.Keys - (set q | q in queued), {};
      var i := 0;
      while i < POOL_TABLE_SIZE
        invariant i <= POOL_TABLE_SIZE && Underway(before, done)
        invariant forall q :: q in queued ==> q !in done
        invariant forall c :: c in todo && c % POOL_TABLE_SIZE < i ==> c in done
      {
        var entry := buckets[i];
        while entry.Entry?
          invariant Underway(before, done) && forall q :: q in queued ==> q !in done
          invariant forall c :: c in todo && c % POOL_TABLE_SIZE < i ==> c in done
          invariant forall c :: c in todo && c % POOL_TABLE_SIZE == i ==> c in done || Find(entry, c) != null
          decreases entry
        {
          ReleaseOne(queued, entry.channel, before, done);
          if entry.channel !in queued {
            done := done + {entry.channel};
          }
          entry := entry.next;
        }
        i := i + 1;
      }
      WalkEnds(before, done, queued);
    }
  }
}
