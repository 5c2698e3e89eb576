/** The bucket table as a value: the arena with its links written as arena indices, the chain
    heads, and the chains those links spell out. Everything about pointers is proved here. */
module BucketModel {
  import opened CTypes
  import opened LeakyBuckets

  const MAX_BUCKETS := 16384
  const MAX_HASHES := 1024
  const NIL := -1

  datatype Bucket = Bucket(typ: int, ip: Ip, lastTime: int, burst: int, hash: int, prev: int, next: int)

  /** A bucket after `memset`. Type zero marks it free. */
  const FREE_BUCKET := Bucket(0, [0, 0, 0, 0], 0, 0, 0, NIL, NIL)

  datatype Table = Table(slots: seq<Bucket>, heads: seq<int>, chains: seq<seq<int>>)

  // ----- hashing ----------------------------------------------------------------------------

  function WeightedSum(ip: Ip, n: nat): nat
    requires n <= 4
  {
    if n == 0 then 0 else WeightedSum(ip, n - 1) + ip[n - 1] as int * (n - 1 + 119)
  }

  function HashOf(ip: Ip): (h: int)
    ensures 0 <= h < MAX_HASHES
  {
    var sum := WeightedSum(ip, 4);
    BitXor(BitXor(sum, sum / 1024), sum / 1048576) % MAX_HASHES
  }

  /** In plain terms: with each byte weighted by 119 and up, the quotient and the remainder of the sum
      by the number of chains, exclusive-or'ed. The second shift never contributes. */
  lemma {:induction false} HashIs(ip: Ip)
    ensures var sum := ip[0] as int * 119 + ip[1] as int * 120 + ip[2] as int * 121 + ip[3] as int * 122;
            HashOf(ip) == BitXor(sum / 1024, sum % 1024) && sum / 1024 <= 120
  {
    hide BitXor, WeightedSum;
    SumIs(ip);
    FoldedSum(WeightedSum(ip, 4));
  }

  lemma {:induction false} FoldedSum(sum: nat)
    requires sum <= 122910
    ensures BitXor(BitXor(sum, sum / 1024), sum / 1048576) % 1024 == BitXor(sum / 1024, sum % 1024)
    ensures sum / 1024 <= 120
  {
    hide BitXor, Pow2;
    var q, r := sum / 1024, sum % 1024;
    Shifts(sum);
    BitXorZero(BitXor(sum, q));
    BitXorMod(sum, q, 10);
    TenBits();
    BitXorSymmetric(r, q);
  }

  lemma Shifts(sum: nat)
    requires sum <= 122910
    ensures sum / 1048576 == 0 && sum / 1024 <= 120 && (sum / 1024) % 1024 == sum / 1024
  {
  }

  lemma {:induction false} SumIs(ip: Ip)
    ensures WeightedSum(ip, 4) == ip[0] as int * 119 + ip[1] as int * 120 + ip[2] as int * 121 + ip[3] as int * 122
  {
    assert WeightedSum(ip, 1) == WeightedSum(ip, 0) + ip[0] as int * 119;
    assert WeightedSum(ip, 2) == WeightedSum(ip, 1) + ip[1] as int * 120;
    assert WeightedSum(ip, 3) == WeightedSum(ip, 2) + ip[2] as int * 121;
    assert WeightedSum(ip, 4) == WeightedSum(ip, 3) + ip[3] as int * 122;
  }

  lemma {:induction false} TenBits()
    ensures Pow2(10) == 1024
  {
    assert Pow2(5) == 32;
  }

  // ----- well-formed tables -----------------------------------------------------------------

  function At(chain: seq<int>, i: int): int {
    if 0 <= i < |chain| then chain[i] else NIL
  }

  ghost predicate Linked(t: Table, h: int, i: int)
    requires 0 <= h < |t.chains| && 0 <= i < |t.chains[h]|
  {
    var chain := t.chains[h];
    && 0 <= chain[i] < |t.slots|
    && var b := t.slots[chain[i]];
      && b.typ != 0 && b.hash == h
      && b.prev == At(chain, i - 1) && b.next == At(chain, i + 1)
  }

  predicate Distinct(chain: seq<int>) {
    forall i, j | 0 <= i < j < |chain| :: chain[i] != chain[j]
  }

  /** Each chain is finite, without repetition, doubly linked, and starts at its head. */
  ghost predicate ChainsOk(t: Table) {
    && |t.heads| == |t.chains| == MAX_HASHES
    && (forall h | 0 <= h < MAX_HASHES :: t.heads[h] == At(t.chains[h], 0) && Distinct(t.chains[h]))
    && (forall h, i | 0 <= h < MAX_HASHES && 0 <= i < |t.chains[h]| :: Linked(t, h, i))
  }

  /** A free bucket is all zero; a bucket in use is on the chain of its address. */
  ghost predicate SlotOk(t: Table, k: int)
    requires 0 <= k < |t.slots|
  {
    var b := t.slots[k];
    if b.typ == 0 then b == FREE_BUCKET
    else b.hash == HashOf(b.ip) && b.hash < |t.chains| && k in t.chains[b.hash]
  }

  ghost predicate Unique(slots: seq<Bucket>) {
    forall i, j | 0 <= i < |slots| && 0 <= j < |slots| && slots[i].typ != 0 && slots[j].typ != 0
                  && slots[i].ip == slots[j].ip :: i == j
  }

  ghost predicate WellFormed(t: Table) {
    && ChainsOk(t)
    && (forall k | 0 <= k < |t.slots| :: SlotOk(t, k))
    && Unique(t.slots)
  }

  /** The table at program start. */
  function EmptyTable(): (t: Table)
    ensures WellFormed(t) && |t.slots| == MAX_BUCKETS
    ensures forall i | 0 <= i < MAX_BUCKETS :: t.slots[i] == FREE_BUCKET
    ensures forall h | 0 <= h < MAX_HASHES :: t.heads[h] == NIL
  {
    Table(seq(MAX_BUCKETS, _ => FREE_BUCKET), seq(MAX_HASHES, _ => NIL), seq(MAX_HASHES, _ => []))
  }

  ghost predicate InUse(t: Table, k: int) {
    0 <= k < |t.slots| && t.slots[k].typ != 0
  }

  /** The chain that a bucket in use is on. */
  function ChainOf(t: Table, k: int): (chain: seq<int>)
    requires WellFormed(t) && InUse(t, k)
    ensures 0 <= t.slots[k].hash < MAX_HASHES && chain == t.chains[t.slots[k].hash] && k in chain
  {
    assert SlotOk(t, k);
    t.chains[t.slots[k].hash]
  }

  // ----- list surgery -----------------------------------------------------------------------

  function SetNext(slots: seq<Bucket>, i: int, v: int): (r: seq<Bucket>)
    ensures |r| == |slots|
  {
    if 0 <= i < |slots| then slots[i := slots[i].(next := v)] else slots
  }

  function SetPrev(slots: seq<Bucket>, i: int, v: int): (r: seq<Bucket>)
    ensures |r| == |slots|
  {
    if 0 <= i < |slots| then slots[i := slots[i].(prev := v)] else slots
  }

  function IndexOf(chain: seq<int>, k: int): (i: nat)
    requires k in chain
    ensures i < |chain| && chain[i] == k
  {
    if chain[0] == k then 0 else 1 + IndexOf(chain[1..], k)
  }

  function RemoveAt(chain: seq<int>, p: nat): seq<int>
    requires p < |chain|
  {
    chain[..p] + chain[p + 1..]
  }

  /** Take bucket `k` off its chain and zero it. */
  function Unlink(t: Table, k: int): (r: Table)
    requires WellFormed(t) && InUse(t, k)
    ensures |r.slots| == |t.slots| && r.slots[k] == FREE_BUCKET
  {
    var b := t.slots[k];
    var chain := ChainOf(t, k);
    var bypassed := SetPrev(SetNext(t.slots, b.prev, b.next), b.next, b.prev);
    Table(bypassed[k := FREE_BUCKET],
          if b.prev == NIL then t.heads[b.hash := b.next] else t.heads,
          t.chains[b.hash := RemoveAt(chain, IndexOf(chain, k))])
  }

  /** Claim the free bucket `k` and put it at the head of its chain. */
  function Insert(t: Table, k: int, address: NetAdr, now: int): (r: Table)
    requires 0 <= k < |t.slots| && WellFormed(t)
    ensures |r.slots| == |t.slots|
  {
    var h := HashOf(address.ip);
    var b := Bucket(address.typ, address.ip, now, 0, h, NIL, t.heads[h]);
    Table(SetPrev(t.slots[k := b], t.heads[h], k), t.heads[h := k], t.chains[h := [k] + t.chains[h]])
  }

  /** The part of a bucket that is not a link. */
  ghost predicate SameData(b: Bucket, c: Bucket) {
    b.typ == c.typ && b.ip == c.ip && b.lastTime == c.lastTime && b.burst == c.burst && b.hash == c.hash
  }

  lemma {:induction false} NeighboursOf(t: Table, k: int)
    requires WellFormed(t) && InUse(t, k)
    ensures var b := t.slots[k];
            var c := ChainOf(t, k);
            var p := IndexOf(c, k);
            && Linked(t, b.hash, p)
            && b.prev == At(c, p - 1) && b.next == At(c, p + 1)
            && (b.prev == NIL || (InUse(t, b.prev) && b.prev != k
                                 && t.slots[b.prev].hash == b.hash && t.slots[b.prev].next == k))
            && (b.next == NIL || (InUse(t, b.next) && b.next != k
                                 && t.slots[b.next].hash == b.hash && t.slots[b.next].prev == k))
            && (b.prev == NIL <==> p == 0)
            && (b.prev == NIL || b.prev != b.next)
  {
    var b := t.slots[k];
    assert SlotOk(t, k);
    var c := ChainOf(t, k);
    var p := IndexOf(c, k);
    assert Linked(t, b.hash, p);
    if p > 0 { assert Linked(t, b.hash, p - 1); }
    if p + 1 < |c| { assert Linked(t, b.hash, p + 1); }
  }

  /** Every bucket but `k` keeps its data when `k` is unlinked. */
  lemma {:induction false} UnlinkKeepsOthers(t: Table, k: int)
    requires WellFormed(t) && InUse(t, k)
    ensures var r := Unlink(t, k);
            && r.slots[k] == FREE_BUCKET
            && forall i | 0 <= i < |t.slots| && i != k :: SameData(r.slots[i], t.slots[i])
  {
    NeighboursOf(t, k);
  }

  lemma RemoveAtAt(chain: seq<int>, p: nat, i: int)
    requires p < |chain| && i >= -1
    ensures At(RemoveAt(chain, p), i) == if i < p then At(chain, i) else At(chain, i + 1)
  {
  }

  /** What unlinking does to the other buckets: the two neighbours bypass `k`. */
  lemma {:induction false} UnlinkLinks(t: Table, k: int, m: int)
    requires WellFormed(t) && InUse(t, k) && 0 <= m < |t.slots| && m != k
    ensures var b := t.slots[k];
            var o := Unlink(t, k).slots[m];
            && SameData(o, t.slots[m])
            && o.next == (if m == b.prev then b.next else t.slots[m].next)
            && o.prev == (if m == b.next then b.prev else t.slots[m].prev)
  {
    hide ChainsOk, SlotOk, Unique, HashOf;
    NeighboursOf(t, k);
  }

  /** Where on the chain of `k` its neighbours are. */
  lemma {:induction false} Positions(t: Table, k: int, j: int)
    requires WellFormed(t) && InUse(t, k) && 0 <= j < |ChainOf(t, k)| && j != IndexOf(ChainOf(t, k), k)
    ensures var b, c, p := t.slots[k], ChainOf(t, k), IndexOf(ChainOf(t, k), k);
            && Linked(t, b.hash, j) && c[j] != k
            && b.prev == At(c, p - 1) && b.next == At(c, p + 1)
            && (c[j] == b.prev <==> j == p - 1) && (c[j] == b.next <==> j == p + 1)
  {
    var b, c := t.slots[k], ChainOf(t, k);
    NeighboursOf(t, k);
    assert Linked(t, b.hash, j);
    assert Distinct(c);
    hide WellFormed, ChainsOk, SlotOk, Unique, HashOf;
  }

  lemma {:induction false} UnlinkChain(t: Table, k: int, i: int)
    requires WellFormed(t) && InUse(t, k)
    requires 0 <= i < |ChainOf(t, k)| - 1
    ensures |Unlink(t, k).chains[t.slots[k].hash]| == |ChainOf(t, k)| - 1
    ensures Linked(Unlink(t, k), t.slots[k].hash, i)
  {
    var h := t.slots[k].hash;
    var c := ChainOf(t, k);
    var p := IndexOf(c, k);
    var j := if i < p then i else i + 1;
    Positions(t, k, j);
    RemoveAtAt(c, p, i - 1);
    RemoveAtAt(c, p, i);
    RemoveAtAt(c, p, i + 1);
    UnlinkLinks(t, k, c[j]);
    hide WellFormed, ChainsOk, SlotOk, Unique, HashOf, Distinct, SetNext, SetPrev, IndexOf;
  }

  lemma {:induction false} UnlinkLinked(t: Table, k: int, g: int, i: int)
    requires WellFormed(t) && InUse(t, k)
    requires 0 <= g < MAX_HASHES && 0 <= i < |Unlink(t, k).chains[g]|
    ensures Linked(Unlink(t, k), g, i)
  {
    NeighboursOf(t, k);
    if g == t.slots[k].hash {
      UnlinkChain(t, k, i);
    } else {
      assert Linked(t, g, i);
      UnlinkLinks(t, k, t.chains[g][i]);
    }
  }

  lemma {:induction false} StaysOn(chain: seq<int>, k: int, i: int)
    requires k in chain && i in chain && i != k
    ensures i in RemoveAt(chain, IndexOf(chain, k))
  {
    var q, p := IndexOf(chain, i), IndexOf(chain, k);
    assert RemoveAt(chain, p)[if q < p then q else q - 1] == i;
  }

  lemma {:induction false} UnlinkSlotOk(t: Table, k: int, i: int)
    requires WellFormed(t) && InUse(t, k) && 0 <= i < |t.slots|
    ensures SlotOk(Unlink(t, k), i)
  {
    assert SlotOk(t, i);
    var h, c := t.slots[k].hash, ChainOf(t, k);
    if i != k {
      UnlinkLinks(t, k, i);
      hide ChainsOk, Unique, Linked, Distinct, HashOf, RemoveAt, IndexOf;
      if t.slots[i].typ == 0 {
        NeighboursOf(t, k);
      } else if t.slots[i].hash == h {
        StaysOn(c, k, i);
      }
    }
  }

  lemma {:induction false} UnlinkWellFormed(t: Table, k: int)
    requires WellFormed(t) && InUse(t, k)
    ensures WellFormed(Unlink(t, k))
  {
    var r := Unlink(t, k);
    NeighboursOf(t, k);
    UnlinkKeepsOthers(t, k);
    forall g, i | 0 <= g < MAX_HASHES && 0 <= i < |r.chains[g]|
      ensures Linked(r, g, i)
    {
      UnlinkLinked(t, k, g, i);
    }
    forall i | 0 <= i < |r.slots|
      ensures SlotOk(r, i)
    {
      UnlinkSlotOk(t, k, i);
    }
    UnlinkHeads(t, k);
    hide SlotOk, Linked, HashOf;
  }

  lemma {:induction false} UnlinkHeads(t: Table, k: int)
    requires WellFormed(t) && InUse(t, k)
    ensures var r := Unlink(t, k);
            && |r.heads| == |r.chains| == MAX_HASHES
            && forall h | 0 <= h < MAX_HASHES :: r.heads[h] == At(r.chains[h], 0) && Distinct(r.chains[h])
  {
    NeighboursOf(t, k);
    hide SlotOk, Unique, HashOf;
  }

  /** Everything a writer of the table needs to know about unlinking `k`. */
  lemma {:induction false} UnlinkFacts(t: Table, k: int)
    requires WellFormed(t) && InUse(t, k)
    ensures var r := Unlink(t, k);
            var b := t.slots[k];
            && WellFormed(r) && |r.heads| == |t.heads| && 0 <= b.hash < |t.heads|
            && r.heads == (if b.prev == NIL then t.heads[b.hash := b.next] else t.heads)
            && (b.prev == NIL || (0 <= b.prev < |t.slots| && b.prev != k && b.prev != b.next))
            && (b.next == NIL || (0 <= b.next < |t.slots| && b.next != k))
            && forall m | 0 <= m < |t.slots| && m != k ::
                 && SameData(r.slots[m], t.slots[m])
                 && r.slots[m].next == (if m == b.prev then b.next else t.slots[m].next)
                 && r.slots[m].prev == (if m == b.next then b.prev else t.slots[m].prev)
  {
    UnlinkWellFormed(t, k);
    NeighboursOf(t, k);
    hide WellFormed, ChainsOk, SlotOk, Unique;
    forall m | 0 <= m < |t.slots| && m != k
      ensures SameData(Unlink(t, k).slots[m], t.slots[m])
      ensures Unlink(t, k).slots[m].next == (if m == t.slots[k].prev then t.slots[k].next else t.slots[m].next)
      ensures Unlink(t, k).slots[m].prev == (if m == t.slots[k].next then t.slots[k].prev else t.slots[m].prev)
    {
      UnlinkLinks(t, k, m);
    }
  }

  /** Every bucket but `k` keeps its data when `k` is claimed. */
  lemma {:induction false} InsertKeepsOthers(t: Table, k: int, address: NetAdr, now: int)
    requires WellFormed(t) && 0 <= k < |t.slots| && t.slots[k].typ == 0
    ensures var r := Insert(t, k, address, now);
            && SameData(r.slots[k], Bucket(address.typ, address.ip, now, 0, HashOf(address.ip), NIL, NIL))
            && forall i | 0 <= i < |t.slots| && i != k :: SameData(r.slots[i], t.slots[i])
  {
    HeadOf(t, HashOf(address.ip));
  }

  lemma {:induction false} HeadOf(t: Table, h: int)
    requires WellFormed(t) && 0 <= h < MAX_HASHES
    ensures t.heads[h] == NIL
            || (0 <= t.heads[h] < |t.slots| && t.slots[t.heads[h]].typ != 0 && t.chains[h] != []
                && t.chains[h][0] == t.heads[h] && Linked(t, h, 0))
  {
    if t.chains[h] != [] {
      assert Linked(t, h, 0);
    }
  }

  lemma {:induction false} InsertChain(t: Table, k: int, address: NetAdr, now: int, i: int)
    requires WellFormed(t) && 0 <= k < |t.slots| && t.slots[k].typ == 0 && address.typ != 0
    requires 0 <= i <= |t.chains[HashOf(address.ip)]|
    ensures Linked(Insert(t, k, address, now), HashOf(address.ip), i)
  {
    var h := HashOf(address.ip);
    var c := t.chains[h];
    HeadOf(t, h);
    if i > 0 {
      assert Linked(t, h, i - 1);
      assert Insert(t, k, address, now).chains[h][i] == c[i - 1];
    }
  }

  lemma {:induction false} InsertWellFormed(t: Table, k: int, address: NetAdr, now: int)
    requires WellFormed(t) && 0 <= k < |t.slots| && t.slots[k].typ == 0 && address.typ != 0
    requires forall i | 0 <= i < |t.slots| && t.slots[i].typ != 0 :: t.slots[i].ip != address.ip
    ensures WellFormed(Insert(t, k, address, now))
  {
    var r := Insert(t, k, address, now);
    var h := HashOf(address.ip);
    HeadOf(t, h);
    InsertKeepsOthers(t, k, address, now);
    forall g, i | 0 <= g < MAX_HASHES && 0 <= i < |r.chains[g]|
      ensures Linked(r, g, i)
    {
      if g == h {
        InsertChain(t, k, address, now, i);
      } else {
        assert Linked(t, g, i);
      }
    }
    forall g | 0 <= g < MAX_HASHES
      ensures r.heads[g] == At(r.chains[g], 0) && Distinct(r.chains[g])
    {
      forall i | 0 <= i < |t.chains[g]|
        ensures t.chains[g][i] != k
      {
        assert Linked(t, g, i);
      }
    }
    forall i | 0 <= i < |r.slots|
      ensures SlotOk(r, i)
    {
      assert SlotOk(t, i);
      if i == k {
        assert r.chains[h][0] == k;
      } else if t.slots[i].typ != 0 && t.slots[i].hash == h {
        assert r.chains[h][1 + IndexOf(t.chains[h], i)] == i;
      }
    }
  }

  // ----- SVC_BucketForAddress ---------------------------------------------------------------

  /** The bucket in use for an address at or after index `i`, or NIL. */
  function FindFrom(slots: seq<Bucket>, ip: Ip, i: nat): (k: int)
    requires i <= |slots|
    ensures k == NIL || (i <= k < |slots| && slots[k].typ != 0 && slots[k].ip == ip)
    ensures k == NIL ==> forall j | i <= j < |slots| && slots[j].typ != 0 :: slots[j].ip != ip
    decreases |slots| - i
  {
    if i == |slots| then NIL
    else if slots[i].typ != 0 && slots[i].ip == ip then i
    else FindFrom(slots, ip, i + 1)
  }

  function Find(t: Table, ip: Ip): int {
    FindFrom(t.slots, ip, 0)
  }

  /** In a well-formed table the bucket of an address is the only one. */
  lemma FindIsUnique(t: Table, ip: Ip, k: int)
    requires WellFormed(t) && 0 <= k < |t.slots| && t.slots[k].typ != 0 && t.slots[k].ip == ip
    ensures Find(t, ip) == k
  {
  }

  lemma {:induction false} UnlinkKeepsFindNil(t: Table, k: int, ip: Ip)
    requires WellFormed(t) && InUse(t, k) && Find(t, ip) == NIL
    ensures Find(Unlink(t, k), ip) == NIL
  {
    UnlinkKeepsOthers(t, k);
    var r := Unlink(t, k);
    var j := Find(r, ip);
    assert 0 <= j < |t.slots| && j != k ==> SameData(r.slots[j], t.slots[j]);
  }

  /** The bucket of an address is on the chain of its hash, so searching that chain suffices. */
  lemma {:induction false} FindIsOnChain(t: Table, ip: Ip)
    requires WellFormed(t)
    ensures Find(t, ip) != NIL ==> Find(t, ip) in t.chains[HashOf(ip)]
  {
    if Find(t, ip) != NIL {
      assert SlotOk(t, Find(t, ip));
    }
  }

  predicate Expired(b: Bucket, burst: int, period: int, now: int) {
    var interval := now - b.lastTime;
    b.lastTime > 0 && (interval > burst * period || interval < 0)
  }

  /** What can be had for a new address: a free bucket; one not stamped at clock zero that was last
      stamped more than `burst` periods ago; or one stamped in the future of a clock that has gone
      back. */
  lemma {:induction false} AvailableIff(b: Bucket, burst: int, period: int, now: int)
    requires b.lastTime >= 0 && burst >= 0 && period >= 0
    ensures Available(b, burst, period, now)
            <==> b.typ == 0 || (b.lastTime != 0 && !(b.lastTime <= now <= b.lastTime + burst * period))
  {
    MulMonotone(0, burst, period);
  }

  datatype Allocation = Allocation(table: Table, index: int)

  predicate Available(b: Bucket, burst: int, period: int, now: int) {
    b.typ == 0 || Expired(b, burst, period, now)
  }

  /** The table with slot `i` reclaimed if it has expired. */
  function Reclaim(t: Table, i: int, burst: int, period: int, now: int): (r: Table)
    requires WellFormed(t) && 0 <= i < |t.slots|
    ensures |r.slots| == |t.slots| && WellFormed(r)
    ensures r.slots[i].typ == 0 <==> Available(t.slots[i], burst, period, now)
  {
    assert SlotOk(t, i);
    if Expired(t.slots[i], burst, period, now) then
      UnlinkWellFormed(t, i);
      Unlink(t, i)
    else t
  }

  /** The scan of the arena from slot `i` for a bucket to give to a new address. */
  function AllocateFrom(t: Table, i: nat, address: NetAdr, burst: int, period: int, now: int): (a: Allocation)
    requires WellFormed(t) && i <= |t.slots|
    ensures a.index == NIL || i <= a.index < |a.table.slots|
    decreases |t.slots| - i
  {
    if i == |t.slots| then Allocation(t, NIL)
    else
      var t' := Reclaim(t, i, burst, period, now);
      if t'.slots[i].typ == 0 then Allocation(Insert(t', i, address, now), i)
      else AllocateFrom(t', i + 1, address, burst, period, now)
  }

  function BucketFor(t: Table, address: NetAdr, burst: int, period: int, now: int): (a: Allocation)
    requires WellFormed(t)
    ensures a.index == NIL || 0 <= a.index < |a.table.slots|
  {
    var k := Find(t, address.ip);
    if k != NIL then Allocation(t, k) else AllocateFrom(t, 0, address, burst, period, now)
  }

  /** The scan stops at the first slot that is free or expired, reclaims no other, and gives up
      only if there is none. */
  lemma {:induction false} AllocateFromMeaning(t: Table, i: nat, address: NetAdr, burst: int, period: int, now: int)
    requires WellFormed(t) && i <= |t.slots|
    ensures var a := AllocateFrom(t, i, address, burst, period, now);
            if a.index == NIL
            then a.table == t && forall j | i <= j < |t.slots| :: !Available(t.slots[j], burst, period, now)
            else i <= a.index < |t.slots|
                 && Available(t.slots[a.index], burst, period, now)
                 && (forall j | i <= j < a.index :: !Available(t.slots[j], burst, period, now))
                 && a.table == Insert(Reclaim(t, a.index, burst, period, now), a.index, address, now)
    decreases |t.slots| - i
  {
    hide WellFormed, Insert, Unlink, Expired;
    if i == |t.slots| || Available(t.slots[i], burst, period, now) {
    } else {
      AllocateFromMeaning(t, i + 1, address, burst, period, now);
    }
  }

  /** Reclaiming touches no other address's data. */
  lemma {:induction false} ReclaimKeepsOthers(t: Table, k: int, burst: int, period: int, now: int)
    requires WellFormed(t) && 0 <= k < |t.slots|
    ensures var r := Reclaim(t, k, burst, period, now);
            forall i | 0 <= i < |t.slots| && i != k :: SameData(r.slots[i], t.slots[i])
  {
    if Expired(t.slots[k], burst, period, now) {
      assert SlotOk(t, k);
      UnlinkKeepsOthers(t, k);
    }
  }

  /** `SVC_BucketForAddress`, for every table and address: an address that has a bucket gets it
      back and nothing changes; otherwise a null result means that every bucket is in use and
      none can be reclaimed, and a bucket that is granted was free or expired, is fresh, and
      leaves the data of every other bucket alone. */
  lemma {:induction false} BucketForMeaning(t: Table, address: NetAdr, burst: int, period: int, now: int)
    requires WellFormed(t) && address.typ != 0
    ensures var a := BucketFor(t, address, burst, period, now);
            && WellFormed(a.table) && |a.table.slots| == |t.slots|
            && (Find(t, address.ip) != NIL ==> a == Allocation(t, Find(t, address.ip)))
            && (a.index == NIL <==>
                  Find(t, address.ip) == NIL
                  && forall j | 0 <= j < |t.slots| :: !Available(t.slots[j], burst, period, now))
            && (a.index == NIL ==> a.table == t)
            && (a.index != NIL && Find(t, address.ip) == NIL ==>
                  && 0 <= a.index < |t.slots| && Available(t.slots[a.index], burst, period, now)
                  && a.table.slots[a.index].typ != 0 && a.table.slots[a.index].ip == address.ip
                  && a.table.slots[a.index].lastTime == now && a.table.slots[a.index].burst == 0
                  && forall i | 0 <= i < |t.slots| && i != a.index :: SameData(a.table.slots[i], t.slots[i]))
            && (a.index != NIL ==> Find(a.table, address.ip) == a.index)
  {
    if Find(t, address.ip) == NIL {
      AllocateFromMeaning(t, 0, address, burst, period, now);
      var k := BucketFor(t, address, burst, period, now).index;
      if k != NIL {
        var t' := Reclaim(t, k, burst, period, now);
        ReclaimKeepsOthers(t, k, burst, period, now);
        InsertKeepsOthers(t', k, address, now);
        forall i | 0 <= i < |t'.slots| && t'.slots[i].typ != 0
          ensures t'.slots[i].ip != address.ip
        {
          assert i != k;
          assert SameData(t'.slots[i], t.slots[i]);
        }
        InsertWellFormed(t', k, address, now);
        FindIsUnique(Insert(t', k, address, now), address.ip, k);
      }
    }
  }

  /** The rate limiter's write-back into slot `k`. */
  function SetLevel(t: Table, k: int, l: Level): (r: Table)
    requires 0 <= k < |t.slots|
    ensures |r.slots| == |t.slots|
  {
    t.(slots := t.slots[k := t.slots[k].(lastTime := l.lastTime, burst := l.burst)])
  }

  lemma {:induction false} SetLevelWellFormed(t: Table, k: int, l: Level)
    requires WellFormed(t) && InUse(t, k)
    ensures WellFormed(SetLevel(t, k, l))
  {
    var r := SetLevel(t, k, l);
    forall h, i | 0 <= h < MAX_HASHES && 0 <= i < |r.chains[h]|
      ensures Linked(r, h, i)
    {
      assert Linked(t, h, i);
    }
    forall i | 0 <= i < |r.slots|
      ensures SlotOk(r, i)
    {
      assert SlotOk(t, i);
    }
  }
}
