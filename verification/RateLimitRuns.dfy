/** Whole runs of the address limiter: requests from any addresses in any order, with buckets
    created, shared out, reclaimed and refused for want of room along the way. */
module RateLimitRuns {
  import opened CTypes
  import opened LeakyBuckets
  import opened BucketModel
  import opened BucketTables

  /** A request, with the two clock readings made while serving it. */
  datatype Request = Request(from: NetAdr, lookup: int, now: int)

  /** The clock is monotone and starts non-negative; no packet comes from address type zero. */
  ghost predicate Plausible(reqs: seq<Request>) {
    && (forall i | 0 <= i < |reqs| :: reqs[i].from.typ != 0 && 0 <= reqs[i].lookup <= reqs[i].now)
    && (forall i, j | 0 <= i < j < |reqs| :: reqs[i].now <= reqs[j].lookup)
  }

  function Clock(reqs: seq<Request>): int {
    if reqs == [] then 0 else reqs[|reqs| - 1].now
  }

  /** The table after a run from program start, oldest request first. */
  function TableAfter(reqs: seq<Request>, burst: int, period: int): (t: Table)
    requires period > 0 && Plausible(reqs)
    ensures WellFormed(t) && |t.slots| == MAX_BUCKETS
  {
    if reqs == [] then EmptyTable()
    else
      var n := |reqs| - 1;
      var t := TableAfter(reqs[..n], burst, period);
      ServeWellFormed(t, reqs[n].from, burst, period, reqs[n].lookup, reqs[n].now);
      Serve(t, reqs[n].from, burst, period, reqs[n].lookup, reqs[n].now).table
  }

  lemma {:induction false} ServeWellFormed(t: Table, from: NetAdr, burst: int, period: int, lookup: int, now: int)
    requires WellFormed(t) && from.typ != 0 && period > 0
    ensures WellFormed(Serve(t, from, burst, period, lookup, now).table)
    ensures |Serve(t, from, burst, period, lookup, now).table.slots| == |t.slots|
  {
    BucketForMeaning(t, from, burst, period, lookup);
    var a := BucketFor(t, from, burst, period, lookup);
    if a.index != NIL {
      var b := a.table.slots[a.index];
      SetLevelWellFormed(a.table, a.index, Admit(Level(b.lastTime, b.burst), burst, period, now).level);
    }
  }

  /** Whether the last request of the run was let through. */
  predicate LastAdmitted(reqs: seq<Request>, burst: int, period: int)
    requires period > 0 && Plausible(reqs) && reqs != []
  {
    var n := |reqs| - 1;
    !Serve(TableAfter(reqs[..n], burst, period), reqs[n].from, burst, period, reqs[n].lookup, reqs[n].now).limited
  }

  /** How many requests from `ip`, numbered `first` or later and made within [s, e], were let through. */
  function Admitted(reqs: seq<Request>, ip: Ip, burst: int, period: int, first: nat, s: int, e: int): nat
    requires period > 0 && Plausible(reqs)
  {
    if |reqs| <= first then 0
    else
      var n := |reqs| - 1;
      Admitted(reqs[..n], ip, burst, period, first, s, e)
      + if reqs[n].from.ip == ip && s <= reqs[n].now <= e && LastAdmitted(reqs, burst, period) then 1 else 0
  }

  // ----- one request, seen from one address -------------------------------------------------

  function LevelAt(t: Table, k: int): Level
    requires 0 <= k < |t.slots|
  {
    Level(t.slots[k].lastTime, t.slots[k].burst)
  }

  ghost predicate LevelsOk(t: Table, burst: int, now: int) {
    forall k | 0 <= k < |t.slots| && t.slots[k].typ != 0 :: LevelOk(LevelAt(t, k), burst, now)
  }

  /** The address `ip` owes at least the potential `floor`, in its bucket or, when it has none,
      to the clock. */
  ghost predicate AtLeast(t: Table, ip: Ip, period: int, floor: int, now: int) {
    var k := Find(t, ip);
    if k == NIL then floor <= now else floor <= Potential(LevelAt(t, k), period)
  }

  lemma {:induction false} LookupKeepsFloor(
      t: Table, from: NetAdr, burst: int, period: int, lookup: int, clock: int, ip: Ip, floor: int)
    requires WellFormed(t) && from.typ != 0 && Parameters(burst, period) && 0 <= clock <= lookup
    requires LevelsOk(t, burst, clock) && AtLeast(t, ip, period, floor, clock)
    ensures var a := BucketFor(t, from, burst, period, lookup);
            LevelsOk(a.table, burst, lookup) && AtLeast(a.table, ip, period, floor, lookup)
  {
    BucketForMeaning(t, from, burst, period, lookup);
    var a := BucketFor(t, from, burst, period, lookup);
    forall k | 0 <= k < |a.table.slots| && a.table.slots[k].typ != 0
      ensures LevelOk(LevelAt(a.table, k), burst, lookup)
    {
      if k != a.index {
        assert a.table == t || SameData(a.table.slots[k], t.slots[k]);
        assert LevelOk(LevelAt(t, k), burst, clock);
      }
    }
    var k := Find(t, ip);
    if k != NIL && k == a.index && from.ip != ip {
      // the only way to lose a bucket is to let it expire
      assert Expired(t.slots[k], burst, period, lookup);
      MulMonotone(t.slots[k].burst, burst, period);
      assert LevelOk(LevelAt(t, k), burst, clock);
      assert Find(a.table, ip) == NIL by {
        var j := Find(a.table, ip);
        assert 0 <= j < |t.slots| && j != a.index ==> SameData(a.table.slots[j], t.slots[j]) || a.table == t;
      }
    } else if k != NIL && from.ip != ip && k != a.index {
      assert a.table == t || SameData(a.table.slots[k], t.slots[k]);
      FindIsUnique(a.table, ip, k);
    } else if k == NIL && from.ip != ip {
      var j := Find(a.table, ip);
      assert 0 <= j < |t.slots| && j != a.index ==> SameData(a.table.slots[j], t.slots[j]) || a.table == t;
    }
  }

  /** The write-back of one address's level, seen from an address. */
  lemma {:induction false} SetLevelSeen(t: Table, k: int, l: Level, burst: int, clock: int, now: int, ip: Ip)
    requires WellFormed(t) && InUse(t, k) && LevelsOk(t, burst, clock) && clock <= now && LevelOk(l, burst, now)
    ensures var r := SetLevel(t, k, l);
            && LevelsOk(r, burst, now)
            && Find(r, ip) == Find(t, ip)
            && (Find(t, ip) != NIL && Find(t, ip) != k ==> LevelAt(r, Find(t, ip)) == LevelAt(t, Find(t, ip)))
  {
    var r := SetLevel(t, k, l);
    SetLevelWellFormed(t, k, l);
    forall j | 0 <= j < |r.slots| && r.slots[j].typ != 0
      ensures LevelOk(LevelAt(r, j), burst, now)
    {
      assert LevelOk(LevelAt(t, j), burst, clock);
    }
    var j := Find(r, ip);
    assert j != NIL ==> t.slots[j].typ != 0 && t.slots[j].ip == ip;
    if Find(t, ip) != NIL {
      FindIsUnique(r, ip, Find(t, ip));
    }
  }

  /** One request never lowers what an address owes, and an admission of the address itself
      raises it by one period from a level less than one period behind the clock. */
  lemma {:induction false} ServeStep(t: Table, req: Request, burst: int, period: int, clock: int, ip: Ip, floor: int)
    requires WellFormed(t) && req.from.typ != 0 && Parameters(burst, period)
    requires 0 <= clock <= req.lookup <= req.now
    requires LevelsOk(t, burst, clock) && AtLeast(t, ip, period, floor, clock)
    ensures var v := Serve(t, req.from, burst, period, req.lookup, req.now);
            && LevelsOk(v.table, burst, req.now)
            && AtLeast(v.table, ip, period, floor, req.now)
            && (req.from.ip == ip && !v.limited ==>
                  && floor + period <= burst * period + req.now
                  && AtLeast(v.table, ip, period, floor + period, req.now)
                  && AtLeast(v.table, ip, period, req.now + 1, req.now)
                  && req.now + 1 <= burst * period + req.now)
  {
    LookupKeepsFloor(t, req.from, burst, period, req.lookup, clock, ip, floor);
    BucketForMeaning(t, req.from, burst, period, req.lookup);
    var a := BucketFor(t, req.from, burst, period, req.lookup);
    if a.index != NIL {
      var l := LevelAt(a.table, a.index);
      assert InUse(a.table, a.index);
      assert LevelOk(l, burst, req.lookup);
      AdmitPotential(l, burst, period, req.now);
      SetLevelSeen(a.table, a.index, Admit(l, burst, period, req.now).level, burst, req.lookup, req.now, ip);
      MulMonotone(1, burst, period);
    }
  }

  lemma PrefixPlausible(reqs: seq<Request>)
    requires Plausible(reqs) && reqs != []
    ensures Plausible(reqs[..|reqs| - 1]) && Clock(reqs[..|reqs| - 1]) <= reqs[|reqs| - 1].lookup
    ensures 0 <= Clock(reqs[..|reqs| - 1])
  {
  }

  // ----- the upper bound --------------------------------------------------------------------

  /** What an address owes after `n` admissions in a window that starts at `s`. */
  function WindowFloor(n: int, s: int, period: int): int {
    s - period + 1 + n * period
  }

  lemma EmptyLevelsOk(burst: int)
    ensures LevelsOk(EmptyTable(), burst, 0)
  {
  }

  lemma {:induction false} RunInvariant(reqs: seq<Request>, ip: Ip, burst: int, period: int, s: int, e: int)
    requires Parameters(burst, period) && Plausible(reqs)
    ensures var t := TableAfter(reqs, burst, period);
            var n := Admitted(reqs, ip, burst, period, 0, s, e);
            && LevelsOk(t, burst, Clock(reqs))
            && (n >= 1 ==> AtLeast(t, ip, period, WindowFloor(n, s, period), Clock(reqs)))
            && (n >= 1 ==> WindowFloor(n, s, period) <= burst * period + e)
  {
    hide Serve, BucketFor, Find, AtLeast, LevelsOk, LowestFloor, WellFormed;
    if reqs == [] {
      EmptyLevelsOk(burst);
    } else {
      var k := |reqs| - 1;
      var before, req := reqs[..k], reqs[k];
      PrefixPlausible(reqs);
      RunInvariant(before, ip, burst, period, s, e);
      var t := TableAfter(before, burst, period);
      var n := Admitted(before, ip, burst, period, 0, s, e);
      if n >= 1 {
        ServeStep(t, req, burst, period, Clock(before), ip, WindowFloor(n, s, period));
        MulStep(n, period);
      } else {
        var least := LowestFloor(t, ip, period);
        ServeStep(t, req, burst, period, Clock(before), ip, least);
        LowerFloor(TableAfter(reqs, burst, period), ip, period, req.now + 1, WindowFloor(1, s, period), req.now);
      }
    }
  }

  lemma LowerFloor(t: Table, ip: Ip, period: int, floor: int, lower: int, now: int)
    ensures lower <= floor && AtLeast(t, ip, period, floor, now) ==> AtLeast(t, ip, period, lower, now)
  {
  }

  /** A floor that an address certainly stands on. */
  function LowestFloor(t: Table, ip: Ip, period: int): (floor: int)
    ensures forall now | now >= 0 :: AtLeast(t, ip, period, floor, now)
  {
    var k := Find(t, ip);
    if k == NIL then 0 else Potential(LevelAt(t, k), period)
  }

  /** The rate bound. In every run, for every address and every window [s, e], the number of
      requests of that address that the limiter lets through is less than
      `burst + 1 + (e - s) / period`, whatever the other addresses do. */
  lemma {:induction false} RateBound(reqs: seq<Request>, ip: Ip, burst: int, period: int, s: int, e: int)
    requires Parameters(burst, period) && Plausible(reqs) && s <= e
    ensures Admitted(reqs, ip, burst, period, 0, s, e) * period < (burst + 1) * period + (e - s)
  {
    RunInvariant(reqs, ip, burst, period, s, e);
    MulStep(burst, period);
    MulMonotone(0, burst, period);
  }

  // ----- the lower bound --------------------------------------------------------------------

  /** Bucket `k` was last empty when request `j` was served, at time `stamp`, and since then has
      been charged for every admission of its address and for nothing else. */
  ghost predicate EmptySince(reqs: seq<Request>, ip: Ip, burst: int, period: int, e: int, k: int, j: nat, stamp: int)
    requires Parameters(burst, period) && Plausible(reqs) && 0 <= k < MAX_BUCKETS
  {
    && j < |reqs| && reqs[j].from.ip == ip && reqs[j].lookup <= stamp <= reqs[j].now
    && Potential(LevelAt(TableAfter(reqs, burst, period), k), period)
       == stamp + Admitted(reqs, ip, burst, period, j, 0, e) * period
  }

  lemma {:induction false} OthersUntouched(t: Table, req: Request, burst: int, period: int, clock: int, ip: Ip)
    requires WellFormed(t) && req.from.typ != 0 && Parameters(burst, period) && req.from.ip != ip
    requires LevelsOk(t, burst, clock) && clock <= req.lookup <= req.now
    ensures var r := Serve(t, req.from, burst, period, req.lookup, req.now).table;
            var k := Find(r, ip);
            k != NIL ==> Find(t, ip) == k && LevelAt(t, k) == LevelAt(r, k)
  {
    BucketForMeaning(t, req.from, burst, period, req.lookup);
    var a := BucketFor(t, req.from, burst, period, req.lookup);
    var r := Serve(t, req.from, burst, period, req.lookup, req.now).table;
    var k := Find(r, ip);
    if k != NIL {
      assert k != a.index;
      assert a.table == t || SameData(a.table.slots[k], t.slots[k]);
      FindIsUnique(t, ip, k);
    }
  }

  /** The level an address is charged at: its bucket's, or that of the bucket it is given. */
  lemma {:induction false} ChargedLevel(t: Table, req: Request, burst: int, period: int, clock: int)
    requires WellFormed(t) && req.from.typ != 0 && Parameters(burst, period)
    requires LevelsOk(t, burst, clock) && 0 <= clock <= req.lookup <= req.now
    ensures var a := BucketFor(t, req.from, burst, period, req.lookup);
            var v := Serve(t, req.from, burst, period, req.lookup, req.now);
            a.index != NIL ==>
              var l := LevelAt(a.table, a.index);
              && Find(v.table, req.from.ip) == a.index
              && l == (if Find(t, req.from.ip) == NIL then Level(req.lookup, 0) else LevelAt(t, a.index))
              && LevelOk(l, burst, req.lookup)
              && Admit(l, burst, period, req.now) == Verdict(LevelAt(v.table, a.index), v.limited)
  {
    BucketForMeaning(t, req.from, burst, period, req.lookup);
    var a := BucketFor(t, req.from, burst, period, req.lookup);
    if a.index != NIL {
      var l := LevelAt(a.table, a.index);
      assert Find(t, req.from.ip) != NIL ==> LevelOk(LevelAt(t, a.index), burst, clock);
      AdmitPotential(l, burst, period, req.now);
      SetLevelWellFormed(a.table, a.index, Admit(l, burst, period, req.now).level);
      FindIsUnique(SetLevel(a.table, a.index, Admit(l, burst, period, req.now).level), req.from.ip, a.index);
    }
  }

  /** When a request finds its bucket empty: because the bucket is new, or has drained. */
  function Restart(t: Table, req: Request, burst: int, period: int): (r: Option<int>)
    requires WellFormed(t) && period > 0 && req.lookup <= req.now
    ensures r.Some? ==> req.lookup <= r.value <= req.now
  {
    var k := Find(t, req.from.ip);
    if k == NIL then
      if TruncDiv(req.now - req.lookup, period) > 0 then Some(req.now) else Some(req.lookup)
    else if TruncDiv(req.now - t.slots[k].lastTime, period) > t.slots[k].burst then Some(req.now)
    else None
  }

  /** One request of the address itself: its bucket continues from where it was, or restarts
      empty, and is charged one period exactly if the request is let through. If the request is
      refused, the bucket is full and less than one period behind. */
  lemma {:induction false} OwnStep(t: Table, req: Request, burst: int, period: int, clock: int)
    requires WellFormed(t) && req.from.typ != 0 && Parameters(burst, period)
    requires LevelsOk(t, burst, clock) && 0 <= clock <= req.lookup <= req.now
    ensures var k := BucketFor(t, req.from, burst, period, req.lookup).index;
            var v := Serve(t, req.from, burst, period, req.lookup, req.now);
            var restart := Restart(t, req, burst, period);
            k != NIL ==>
              && Find(v.table, req.from.ip) == k
              && Potential(LevelAt(v.table, k), period)
                 == (if restart.Some? then restart.value else Potential(LevelAt(t, Find(t, req.from.ip)), period))
                    + (if v.limited then 0 else period)
              && (v.limited ==> Potential(LevelAt(v.table, k), period) > burst * period + req.now - period)
  {
    hide Serve, BucketFor, Admit, Decay, WellFormed, LevelsOk, Available;
    ChargedLevel(t, req, burst, period, clock);
    BucketForMeaning(t, req.from, burst, period, req.lookup);
    var a := BucketFor(t, req.from, burst, period, req.lookup);
    if a.index != NIL {
      var l := LevelAt(a.table, a.index);
      DecayPotential(l, burst, period, req.now);
      AdmitPotential(l, burst, period, req.now);
    }
  }

  lemma {:induction false} LevelsInvariant(reqs: seq<Request>, burst: int, period: int)
    requires Parameters(burst, period) && Plausible(reqs)
    ensures LevelsOk(TableAfter(reqs, burst, period), burst, Clock(reqs))
  {
    RunInvariant(reqs, [0, 0, 0, 0], burst, period, 0, 0);
  }

  lemma {:induction false} FullTable(t: Table, req: Request, burst: int, period: int)
    requires WellFormed(t) && req.from.typ != 0 && period > 0
    ensures BucketFor(t, req.from, burst, period, req.lookup).index == NIL ==>
              && Find(Serve(t, req.from, burst, period, req.lookup, req.now).table, req.from.ip) == NIL
              && forall j | 0 <= j < |t.slots| ::
                   t.slots[j].typ != 0 && !Expired(t.slots[j], burst, period, req.lookup)
  {
    BucketForMeaning(t, req.from, burst, period, req.lookup);
    forall j | 0 <= j < |t.slots| && BucketFor(t, req.from, burst, period, req.lookup).index == NIL
      ensures t.slots[j].typ != 0 && !Expired(t.slots[j], burst, period, req.lookup)
    {
      assert !Available(t.slots[j], burst, period, req.lookup);
    }
  }

  lemma {:induction false} AccountOfOther(
      reqs: seq<Request>, ip: Ip, burst: int, period: int, e: int, j: nat, stamp: int)
    requires Parameters(burst, period) && Plausible(reqs) && reqs != [] && reqs[|reqs| - 1].from.ip != ip
    requires Plausible(reqs[..|reqs| - 1])
    ensures var k := Find(TableAfter(reqs, burst, period), ip);
            && k != NIL ==>
              && Find(TableAfter(reqs[..|reqs| - 1], burst, period), ip) == k
              && (EmptySince(reqs[..|reqs| - 1], ip, burst, period, e, k, j, stamp)
                  ==> EmptySince(reqs, ip, burst, period, e, k, j, stamp))
  {
    var before, req := reqs[..|reqs| - 1], reqs[|reqs| - 1];
    PrefixPlausible(reqs);
    LevelsInvariant(before, burst, period);
    OthersUntouched(TableAfter(before, burst, period), req, burst, period, Clock(before), ip);
  }

  /** `OwnStep`, phrased for the last request of a run. */
  lemma {:induction false} LastOwnStep(reqs: seq<Request>, burst: int, period: int)
    requires Parameters(burst, period) && Plausible(reqs) && reqs != []
    requires Plausible(reqs[..|reqs| - 1])
    ensures var n := |reqs| - 1;
            var ip := reqs[n].from.ip;
            var t := TableAfter(reqs[..n], burst, period);
            var t' := TableAfter(reqs, burst, period);
            var k := Find(t', ip);
            var restart := Restart(t, reqs[n], burst, period);
            k != NIL ==>
              && (restart.None? ==> Find(t, ip) == k)
              && Potential(LevelAt(t', k), period)
                 == (if restart.Some? then restart.value else Potential(LevelAt(t, k), period))
                    + (if LastAdmitted(reqs, burst, period) then period else 0)
  {
    var n := |reqs| - 1;
    var before, req := reqs[..n], reqs[n];
    var t := TableAfter(before, burst, period);
    PrefixPlausible(reqs);
    LevelsInvariant(before, burst, period);
    OwnStep(t, req, burst, period, Clock(before));
    FullTable(t, req, burst, period);
    BucketForMeaning(t, req.from, burst, period, req.lookup);
  }

  lemma {:induction false} AccountOfOwn(reqs: seq<Request>, burst: int, period: int, e: int, j: nat, stamp: int)
    requires Parameters(burst, period) && Plausible(reqs) && reqs != [] && Clock(reqs) <= e
    requires Plausible(reqs[..|reqs| - 1])
    ensures var n := |reqs| - 1;
            var ip := reqs[n].from.ip;
            var k := Find(TableAfter(reqs, burst, period), ip);
            var restart := Restart(TableAfter(reqs[..n], burst, period), reqs[n], burst, period);
            k != NIL ==>
              && (restart.Some? ==> EmptySince(reqs, ip, burst, period, e, k, n, restart.value))
              && (restart.None? && EmptySince(reqs[..n], ip, burst, period, e, k, j, stamp) ==>
                    EmptySince(reqs, ip, burst, period, e, k, j, stamp))
  {
    hide Serve, TableAfter, LastAdmitted, Restart, Find, Potential, LevelAt;
    LastOwnStep(reqs, burst, period);
    var n, ip := |reqs| - 1, reqs[|reqs| - 1].from.ip;
    assert Admitted(reqs[..n], ip, burst, period, n, 0, e) == 0;
    if LastAdmitted(reqs, burst, period) {
      MulSame(Admitted(reqs, ip, burst, period, n, 0, e), 1, period);
    } else {
      MulSame(Admitted(reqs, ip, burst, period, n, 0, e), 0, period);
    }
    var before := reqs[..|reqs| - 1];
    MulStep(Admitted(before, reqs[|reqs| - 1].from.ip, burst, period, j, 0, e), period);
  }

  /** Every bucket can account for its level. */
  lemma {:induction false} Accounted(reqs: seq<Request>, ip: Ip, burst: int, period: int, e: int)
      returns (j: nat, stamp: int)
    requires Parameters(burst, period) && Plausible(reqs) && Clock(reqs) <= e
    ensures var k := Find(TableAfter(reqs, burst, period), ip);
            k != NIL ==> EmptySince(reqs, ip, burst, period, e, k, j, stamp)
  {
    j, stamp := 0, 0;
    if reqs == [] {
    } else {
      var n := |reqs| - 1;
      PrefixPlausible(reqs);
      j, stamp := Accounted(reqs[..n], ip, burst, period, e);
      if reqs[n].from.ip != ip {
        AccountOfOther(reqs, ip, burst, period, e, j, stamp);
      } else {
        AccountOfOwn(reqs, burst, period, e, j, stamp);
        var restart := Restart(TableAfter(reqs[..n], burst, period), reqs[n], burst, period);
        if restart.Some? {
          j, stamp := n, restart.value;
        }
      }
    }
  }

  // ----- buckets that stay --------------------------------------------------------------------

  /** A bucket that the scan passes over: used no more than `burst` periods ago, or last stamped at
      clock zero, in which case it does not matter how long ago. */
  predicate Held(b: Bucket, burst: int, period: int, lookup: int) {
    b.lastTime == 0 || lookup - b.lastTime <= burst * period
  }

  /** In a run these are exactly the buckets in use that have not expired. */
  lemma {:induction false} UnexpiredIffHeld(reqs: seq<Request>, burst: int, period: int, k: int, lookup: int)
    requires Parameters(burst, period) && Plausible(reqs) && 0 <= k < MAX_BUCKETS && Clock(reqs) <= lookup
    requires TableAfter(reqs, burst, period).slots[k].typ != 0
    ensures var b := TableAfter(reqs, burst, period).slots[k];
            !Expired(b, burst, period, lookup) <==> Held(b, burst, period, lookup)
  {
    hide TableAfter;
    LevelsInvariant(reqs, burst, period);
    assert LevelOk(LevelAt(TableAfter(reqs, burst, period), k), burst, Clock(reqs));
  }

  /** The bucket of an address, last stamped at clock zero. */
  ghost predicate StampedAtZero(t: Table, ip: Ip) {
    var k := Find(t, ip);
    k != NIL && t.slots[k].lastTime == 0
  }

  lemma {:induction false} OthersKeepStamp(t: Table, req: Request, burst: int, period: int, ip: Ip)
    requires WellFormed(t) && req.from.typ != 0 && period > 0 && req.from.ip != ip && StampedAtZero(t, ip)
    ensures StampedAtZero(Serve(t, req.from, burst, period, req.lookup, req.now).table, ip)
  {
    BucketForMeaning(t, req.from, burst, period, req.lookup);
    ServeWellFormed(t, req.from, burst, period, req.lookup, req.now);
    var k := Find(t, ip);
    var a := BucketFor(t, req.from, burst, period, req.lookup);
    assert a.table == t || SameData(a.table.slots[k], t.slots[k]);
    FindIsUnique(Serve(t, req.from, burst, period, req.lookup, req.now).table, ip, k);
  }

  lemma {:induction false} FirstStamp(req: Request, burst: int, period: int)
    requires Parameters(burst, period) && Plausible([req]) && req.now == 0
    ensures StampedAtZero(TableAfter([req], burst, period), req.from.ip)
  {
    hide Serve, BucketFor, Find, Available, Admit, LevelsOk;
    assert [req][..0] == [] && [req][0] == req;
    var t := EmptyTable();
    EmptyLevelsOk(burst);
    EmptyHasRoom(req.from.ip, burst, period, req.lookup);
    BucketForMeaning(t, req.from, burst, period, req.lookup);
    ChargedLevel(t, req, burst, period, 0);
    AdmitPotential(LevelAt(BucketFor(t, req.from, burst, period, req.lookup).table,
                           BucketFor(t, req.from, burst, period, req.lookup).index), burst, period, req.now);
  }

  lemma {:induction false} EmptyHasRoom(ip: Ip, burst: int, period: int, lookup: int)
    ensures Find(EmptyTable(), ip) == NIL && Available(EmptyTable().slots[0], burst, period, lookup)
  {
  }

  /** The bucket of an address whose one request came at clock zero is never reclaimed: after any
      run of other addresses, however long, it is still there and still counts as unexpired. */
  lemma {:induction false} NeverReclaimed(reqs: seq<Request>, burst: int, period: int, lookup: int)
    requires Parameters(burst, period) && Plausible(reqs) && reqs != [] && reqs[0].now == 0
    requires forall i | 1 <= i < |reqs| :: reqs[i].from.ip != reqs[0].from.ip
    ensures var t := TableAfter(reqs, burst, period);
            StampedAtZero(t, reqs[0].from.ip) && !Expired(t.slots[Find(t, reqs[0].from.ip)], burst, period, lookup)
  {
    hide Serve, Find;
    var n := |reqs| - 1;
    if n == 0 {
      assert reqs == [reqs[0]];
      FirstStamp(reqs[0], burst, period);
    } else {
      PrefixPlausible(reqs);
      NeverReclaimed(reqs[..n], burst, period, lookup);
      OthersKeepStamp(TableAfter(reqs[..n], burst, period), reqs[n], burst, period, reqs[0].from.ip);
    }
  }

  /** The address of the last request had no bucket, and none could be had. */
  ghost predicate ArenaFull(reqs: seq<Request>, burst: int, period: int)
    requires period > 0 && Plausible(reqs) && reqs != [] && Plausible(reqs[..|reqs| - 1])
  {
    var req := reqs[|reqs| - 1];
    var t := TableAfter(reqs[..|reqs| - 1], burst, period);
    && Find(t, req.from.ip) == NIL
    && forall i | 0 <= i < |t.slots| ::
         && t.slots[i].typ != 0 && !Expired(t.slots[i], burst, period, req.lookup)
         && Held(t.slots[i], burst, period, req.lookup)
  }

  /** Since request `j` the address of the last request has been admitted as often as that. */
  ghost predicate AllowanceSpent(reqs: seq<Request>, burst: int, period: int, j: nat)
    requires period > 0 && Plausible(reqs) && reqs != []
  {
    var req := reqs[|reqs| - 1];
    var n := Admitted(reqs, req.from.ip, burst, period, j, 0, req.now);
    && j < |reqs| && reqs[j].from.ip == req.from.ip
    && n >= burst && n * period > (burst - 1) * period + (req.now - reqs[j].now)
  }

  /** Nobody is refused without cause. If the last request of a run is refused, then either its
      address had no bucket and the arena is full of buckets of others that were used no more than
      `burst` periods ago or stamped at clock zero, or the address has used up its allowance: since
      some request `j` of its own it has been admitted at least `burst` times, and no more than one
      admission short of the bound. */
  lemma {:induction false} RefusalHasCause(reqs: seq<Request>, burst: int, period: int) returns (j: nat)
    requires Parameters(burst, period) && Plausible(reqs) && reqs != []
    requires !LastAdmitted(reqs, burst, period)
    ensures ArenaFull(reqs, burst, period) || AllowanceSpent(reqs, burst, period, j)
  {
    var req := reqs[|reqs| - 1];
    var before := reqs[..|reqs| - 1];
    var t := TableAfter(before, burst, period);
    PrefixPlausible(reqs);
    LevelsInvariant(before, burst, period);
    FullTable(t, req, burst, period);
    OwnStep(t, req, burst, period, Clock(before));
    var stamp;
    j, stamp := Accounted(reqs, req.from.ip, burst, period, req.now);
    BucketForMeaning(t, req.from, burst, period, req.lookup);
    var n := Admitted(reqs, req.from.ip, burst, period, j, 0, req.now);
    MulSub(burst, 1, period);
    if n <= burst - 1 {
      MulMonotone(n, burst - 1, period);
    }
  }
}
