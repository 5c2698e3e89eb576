/** The arena of buckets and its hash chains as the server holds them: objects threaded by
    `prev` and `next`, updated in place. Each method is proved against the value model. */
module BucketTables {
  import opened CTypes
  import opened LeakyBuckets
  import opened BucketModel

  /** `SVC_HashForAddress`. */
  method HashForAddress(ip: Ip) returns (hash: int)
    ensures hash == HashOf(ip)
  {
    hash := 0;
    for i := 0 to 4
      invariant hash == WeightedSum(ip, i) >= 0
    {
      hash := hash + ip[i] as int * (i + 119);
    }
    hash := BitXor(BitXor(hash, hash / 1024), hash / 1048576);
    hash := hash % MAX_HASHES;
  }

  class BucketTable {
    const buckets: seq<LeakyBucket>
    const bucketHashes: array<LeakyBucket?>
    ghost var model: Table

    ghost function Pointer(i: int): LeakyBucket? {
      if 0 <= i < |buckets| then buckets[i] else null
    }

    ghost predicate Represents(i: int)
      requires 0 <= i < |buckets| == |model.slots|
      reads this, buckets
    {
      var o := buckets[i];
      var b := model.slots[i];
      && o.typ == b.typ && o.ip == b.ip && o.lastTime == b.lastTime && o.burst == b.burst && o.hash == b.hash
      && o.prev == Pointer(b.prev) && o.next == Pointer(b.next)
    }

    ghost predicate Concrete()
      reads this, buckets, bucketHashes
    {
      && |buckets| == |model.slots| == MAX_BUCKETS
      && bucketHashes.Length == |model.heads| == MAX_HASHES
      && (forall i, j | 0 <= i < j < |buckets| :: buckets[i] != buckets[j])
      && (forall i | 0 <= i < |buckets| :: Represents(i))
      && (forall h | 0 <= h < MAX_HASHES :: bucketHashes[h] == Pointer(model.heads[h]))
    }

    ghost predicate Valid()
      reads this, buckets, bucketHashes
    {
      Concrete() && WellFormed(model)
    }

    constructor ()
      ensures Valid() && model == EmptyTable()
      ensures fresh(buckets) && fresh(bucketHashes)
    {
      var arena: seq<LeakyBucket> := [];
      for i := 0 to MAX_BUCKETS
        invariant |arena| == i && fresh(arena)
        invariant forall j, k | 0 <= j < k < i :: arena[j] != arena[k]
        invariant forall j | 0 <= j < i ::
                    && arena[j].typ == 0 && arena[j].ip == [0, 0, 0, 0] && arena[j].lastTime == 0
                    && arena[j].burst == 0 && arena[j].hash == 0 && arena[j].prev == null && arena[j].next == null
      {
        var b := new LeakyBucket();
        arena := arena + [b];
      }
      buckets := arena;
      bucketHashes := new LeakyBucket?[MAX_HASHES](_ => null);
      model := EmptyTable();
    }

    /** The search of the hash chain. */
    method Search(hash: int, ip: Ip) returns (bucket: LeakyBucket?)
      requires Valid() && hash == HashOf(ip)
      ensures bucket == Pointer(Find(model, ip))
    {
      ghost var chain := model.chains[hash];
      ghost var i := 0;
      bucket := bucketHashes[hash];
      while bucket != null
        invariant 0 <= i <= |chain| && bucket == Pointer(At(chain, i))
        invariant i < |chain| ==> Linked(model, hash, i)
        invariant forall j | 0 <= j < i :: InUse(model, chain[j]) && model.slots[chain[j]].ip != ip
        decreases |chain| - i
      {
        assert Represents(chain[i]);
        if bucket.ip == ip {
          FindIsUnique(model, ip, chain[i]);
          return;
        }
        bucket := bucket.next;
        i := i + 1;
        assert i < |chain| ==> Linked(model, hash, i);
      }
      FindIsOnChain(model, ip);
    }

    /** The reclaim branch of the scan: unlink the bucket and zero it. */
    method Release(bucket: LeakyBucket, ghost k: int)
      requires Valid() && InUse(model, k) && bucket == Pointer(k)
      modifies this`model, buckets, bucketHashes
      ensures Valid() && model == Unlink(old(model), k)
    {
      UnlinkFacts(model, k);
      hide WellFormed, Unlink;
      assert Represents(k);
      ghost var b := model.slots[k];
      assert b.prev != NIL ==> Represents(b.prev);
      assert b.next != NIL ==> Represents(b.next);
      ghost var unlinked := Unlink(model, k);

      if bucket.prev != null {
        bucket.prev.next := bucket.next;
      } else {
        bucketHashes[bucket.hash] := bucket.next;
      }
      if bucket.next != null {
        bucket.next.prev := bucket.prev;
      }
      bucket.Clear();
      model := unlinked;
      forall i | 0 <= i < |buckets|
        ensures Represents(i)
      {
        assert old(Represents(i));
      }
    }

    /** The claim branch of the scan: fill the bucket and put it at the head of its chain. */
    method Claim(bucket: LeakyBucket, ghost k: int, address: NetAdr, hash: int, now: int)
      requires Valid() && 0 <= k < |buckets| && bucket == Pointer(k) && bucket.typ == 0
      requires address.typ != 0 && hash == HashOf(address.ip) && Find(model, address.ip) == NIL
      modifies this`model, buckets, bucketHashes
      ensures Valid() && model == Insert(old(model), k, address, now)
    {
      assert Represents(k);
      HeadOf(model, hash);
      InsertWellFormed(model, k, address, now);
      ghost var inserted := Insert(model, k, address, now);
      ghost var head := model.heads[hash];
      assert head != NIL ==> Represents(head);
      hide WellFormed, ChainsOk, SlotOk, Unique, Linked, FindFrom;

      bucket.Assign(address.typ, address.ip, now, hash);
      bucket.next := bucketHashes[hash];
      if bucketHashes[hash] != null {
        bucketHashes[hash].prev := bucket;
      }
      bucket.prev := null;
      bucketHashes[hash] := bucket;
      model := inserted;
      forall i | 0 <= i < |buckets|
        ensures Represents(i)
      {
        assert old(Represents(i));
      }
    }

    /** `SVC_BucketForAddress`, with the clock reading as a parameter. */
    method BucketForAddress(address: NetAdr, burst: int, period: int, now: int) returns (bucket: LeakyBucket?)
      requires Valid() && address.typ != 0
      modifies this`model, buckets, bucketHashes
      ensures Valid()
      ensures model == BucketFor(old(model), address, burst, period, now).table
      ensures bucket == Pointer(BucketFor(old(model), address, burst, period, now).index)
    {
      var hash := HashForAddress(address.ip);
      bucket := Search(hash, address.ip);
      if bucket != null {
        return;
      }

      for i := 0 to MAX_BUCKETS
        invariant Valid() && model == old(model)
        invariant AllocateFrom(model, 0, address, burst, period, now)
                  == AllocateFrom(model, i, address, burst, period, now)
      {
        bucket := buckets[i];
        var claimed := ScanSlot(bucket, i, address, hash, burst, period, now);
        if claimed {
          return;
        }
      }
      bucket := null;
    }

    /** One turn of the scan: reclaim the bucket if it has expired, and claim it if it is free. */
    method ScanSlot(bucket: LeakyBucket, ghost i: int, address: NetAdr, hash: int, burst: int, period: int, now: int)
        returns (claimed: bool)
      requires Valid() && 0 <= i < |buckets| && bucket == Pointer(i)
      requires address.typ != 0 && hash == HashOf(address.ip) && Find(model, address.ip) == NIL
      modifies this`model, buckets, bucketHashes
      ensures Valid()
      ensures claimed <==> Reclaim(old(model), i, burst, period, now).slots[i].typ == 0
      ensures model == if claimed then Insert(Reclaim(old(model), i, burst, period, now), i, address, now)
                       else old(model)
    {
      assert Represents(i) && SlotOk(model, i);
      hide ChainsOk, SlotOk, Unique, HashOf, FindFrom, Unlink, Insert;
      var interval := now - bucket.lastTime;
      if bucket.lastTime > 0 && (interval > burst * period || interval < 0) {
        UnlinkKeepsFindNil(model, i, address.ip);
        Release(bucket, i);
      }
      assert Represents(i);
      if bucket.typ == 0 {
        Claim(bucket, i, address, hash, now);
        return true;
      }
      return false;
    }

    /** `SVC_RateLimitAddress`. The two callees read the clock one after the other. */
    method RateLimitAddress(from: NetAdr, burst: int, period: int, lookup: int, now: int) returns (limited: bool)
      requires Valid() && from.typ != 0 && period > 0
      modifies this`model, buckets, bucketHashes
      ensures Valid()
      ensures Served(model, limited) == Serve(old(model), from, burst, period, lookup, now)
    {
      BucketForMeaning(model, from, burst, period, lookup);
      ghost var a := BucketFor(model, from, burst, period, lookup);
      var bucket := BucketForAddress(from, burst, period, lookup);
      if bucket != null {
        assert Represents(a.index);
        SetLevelWellFormed(model, a.index, Admit(bucket.GetLevel(), burst, period, now).level);
      }
      label called:
      limited := RateLimit(bucket, burst, period, now);
      if bucket != null {
        model := SetLevel(model, a.index, bucket.GetLevel());
        forall i | 0 <= i < |buckets|
          ensures Represents(i)
        {
          assert old@called(Represents(i));
        }
      }
    }
  }

  datatype Served = Served(table: Table, limited: bool)

  /** The meaning of one call of the address limiter. */
  function Serve(t: Table, from: NetAdr, burst: int, period: int, lookup: int, now: int): Served
    requires WellFormed(t) && from.typ != 0 && period > 0
  {
    var a := BucketFor(t, from, burst, period, lookup);
    if a.index == NIL then Served(a.table, true)
    else
      var b := a.table.slots[a.index];
      var v := Admit(Level(b.lastTime, b.burst), burst, period, now);
      Served(SetLevel(a.table, a.index, v.level), v.limited)
  }
}
