/** The integer leaky bucket of `SVC_RateLimit`: the method on the heap object, the function it
    computes, and the arithmetic that bounds what one bucket admits. */
module LeakyBuckets {
  import opened CTypes

  /** `leakyBucket_t`. The links run through the hash chain that the bucket is on. */
  class LeakyBucket {
    var typ: int
    var ip: Ip
    var lastTime: int
    var burst: int
    var hash: int
    var prev: LeakyBucket?
    var next: LeakyBucket?

    /** Static storage starts out zero. */
    constructor ()
      ensures typ == 0 && ip == [0, 0, 0, 0] && lastTime == 0 && burst == 0 && hash == 0
      ensures prev == null && next == null
    {
      typ, ip, lastTime, burst, hash, prev, next := 0, [0, 0, 0, 0], 0, 0, 0, null, null;
    }

    /** The `memset` of a reclaimed bucket. */
    method Clear()
      modifies this
      ensures typ == 0 && ip == [0, 0, 0, 0] && lastTime == 0 && burst == 0 && hash == 0
      ensures prev == null && next == null
    {
      typ, ip, lastTime, burst, hash, prev, next := 0, [0, 0, 0, 0], 0, 0, 0, null, null;
    }

    /** Take the bucket for an address. The links are left to the caller. */
    method Assign(typ: int, ip: Ip, now: int, hash: int)
      modifies this`typ, this`ip, this`lastTime, this`burst, this`hash
      ensures this.typ == typ && this.ip == ip && lastTime == now && burst == 0 && this.hash == hash
    {
      this.typ := typ;
      this.ip := ip;
      lastTime := now;
      burst := 0;
      this.hash := hash;
    }

    function GetLevel(): Level
      reads this
    {
      Level(lastTime, burst)
    }
  }

  /** What the rate limiter reads and writes of a bucket. */
  datatype Level = Level(lastTime: int, burst: int)

  datatype Verdict = Verdict(level: Level, limited: bool)

  /** The level after the elapsed periods have drained out of it. */
  function Decay(l: Level, period: int, now: int): Level
    requires period > 0
  {
    var interval := now - l.lastTime;
    var expired := TruncDiv(interval, period);
    if expired > l.burst || interval < 0 then Level(now, 0)
    else Level(now - TruncMod(interval, period), SignedChar(l.burst - expired))
  }

  /** One more request against a drained bucket. */
  function Charge(d: Level, burst: int): Verdict {
    if d.burst < burst then Verdict(Level(d.lastTime, SignedChar(d.burst + 1)), false)
    else Verdict(d, true)
  }

  /** One request against a bucket that exists. */
  function Admit(l: Level, burst: int, period: int, now: int): Verdict
    requires period > 0
  {
    Charge(Decay(l, period, now), burst)
  }

  /** `SVC_RateLimit`. A null bucket is always limited. */
  method RateLimit(bucket: LeakyBucket?, burst: int, period: int, now: int) returns (limited: bool)
    requires period > 0
    modifies if bucket == null then {} else {bucket}
    ensures bucket == null ==> limited
    ensures bucket != null ==>
              && Verdict(bucket.GetLevel(), limited) == Admit(old(bucket.GetLevel()), burst, period, now)
              && bucket.typ == old(bucket.typ) && bucket.ip == old(bucket.ip) && bucket.hash == old(bucket.hash)
              && bucket.prev == old(bucket.prev) && bucket.next == old(bucket.next)
  {
    if bucket != null {
      var interval := now - bucket.lastTime;
      var expired := TruncDiv(interval, period);
      var expiredRemainder := TruncMod(interval, period);

      if expired > bucket.burst || interval < 0 {
        bucket.burst := 0;
        bucket.lastTime := now;
      } else {
        bucket.burst := SignedChar(bucket.burst - expired);
        bucket.lastTime := now - expiredRemainder;
      }

      if bucket.burst < burst {
        bucket.burst := SignedChar(bucket.burst + 1);
        return false;
      }
    }
    return true;
  }

  // ----- one step ---------------------------------------------------------------------------

  /** The quantity the proofs follow: the time at which the bucket will have drained to empty. */
  function Potential(l: Level, period: int): int {
    l.burst * period + l.lastTime
  }

  ghost predicate LevelOk(l: Level, burst: int, now: int) {
    0 <= l.burst <= burst && 0 <= l.lastTime <= now
  }

  ghost predicate Parameters(burst: int, period: int) {
    1 <= burst <= 127 && period >= 1
  }

  lemma DivMod(a: int, b: int)
    requires a >= 0 && b > 0
    ensures TruncDiv(a, b) * b + TruncMod(a, b) == a
    ensures 0 <= TruncMod(a, b) < b && TruncDiv(a, b) >= 0
  {
  }

  /** Draining conserves the potential; forgetting an expired bucket raises it to the present.
      Either way the drained bucket is less than one period behind the clock. */
  lemma {:induction false} DecayPotential(l: Level, burst: int, period: int, now: int)
    requires Parameters(burst, period) && LevelOk(l, burst, now)
    ensures var d := Decay(l, period, now);
            && LevelOk(d, burst, now)
            && now - period < d.lastTime
            && (if TruncDiv(now - l.lastTime, period) > l.burst
                then Potential(d, period) == now && Potential(l, period) < now
                else Potential(d, period) == Potential(l, period))
  {
    var interval := now - l.lastTime;
    var expired := TruncDiv(interval, period);
    DivMod(interval, period);
    if expired > l.burst {
      MulMonotone(l.burst + 1, expired, period);
      MulStep(l.burst, period);
    } else {
      MulSub(l.burst, expired, period);
    }
  }

  /** An admission costs exactly one period and never lifts the potential past `burst` periods
      from now; a refusal happens only to a bucket that is full. */
  lemma {:induction false} AdmitPotential(l: Level, burst: int, period: int, now: int)
    requires Parameters(burst, period) && LevelOk(l, burst, now)
    ensures var d := Decay(l, period, now);
            var v := Admit(l, burst, period, now);
            && LevelOk(v.level, burst, now)
            && Potential(d, period) >= Potential(l, period)
            && Potential(d, period) > now - period
            && Potential(v.level, period) <= burst * period + now
            && (if v.limited
                then v.level == d && d.burst == burst
                else Potential(v.level, period) == Potential(d, period) + period)
  {
    DecayPotential(l, burst, period, now);
    ChargePotential(Decay(l, period, now), burst, period, now);
  }

  lemma {:induction false} ChargePotential(d: Level, burst: int, period: int, now: int)
    requires Parameters(burst, period) && LevelOk(d, burst, now)
    ensures var v := Charge(d, burst);
            && LevelOk(v.level, burst, now)
            && Potential(v.level, period) <= burst * period + now
            && (if v.limited then v.level == d && d.burst == burst
                else Potential(v.level, period) == Potential(d, period) + period)
  {
    MulStep(d.burst, period);
    MulMonotone(Charge(d, burst).level.burst, burst, period);
  }

  /** A clock that has gone back empties the bucket: the request is let through, whatever the level. */
  lemma {:induction false} ClockWentBack(l: Level, burst: int, period: int, now: int)
    requires Parameters(burst, period) && now < l.lastTime
    ensures Admit(l, burst, period, now) == Verdict(Level(now, 1), false)
  {
  }

  // ----- runs of one bucket -----------------------------------------------------------------

  /** The level after requests at the given times, oldest first, on a bucket that starts at `l0`. */
  function LevelAfter(l0: Level, burst: int, period: int, times: seq<int>): Level
    requires period > 0
  {
    if times == [] then l0
    else
      var n := |times| - 1;
      Admit(LevelAfter(l0, burst, period, times[..n]), burst, period, times[n]).level
  }

  predicate AdmitsLast(l0: Level, burst: int, period: int, times: seq<int>)
    requires period > 0 && times != []
  {
    var n := |times| - 1;
    !Admit(LevelAfter(l0, burst, period, times[..n]), burst, period, times[n]).limited
  }

  /** How many of the requests made in the time window [s, e] were admitted. */
  function AdmittedIn(l0: Level, burst: int, period: int, times: seq<int>, s: int, e: int): nat
    requires period > 0
  {
    if times == [] then 0
    else
      var n := |times| - 1;
      AdmittedIn(l0, burst, period, times[..n], s, e)
      + if s <= times[n] <= e && AdmitsLast(l0, burst, period, times) then 1 else 0
  }

  ghost predicate Monotone(from: int, times: seq<int>) {
    && (forall i | 0 <= i < |times| :: from <= times[i])
    && (forall i, j | 0 <= i < j < |times| :: times[i] <= times[j])
  }

  function LastTime(from: int, times: seq<int>): int {
    if times == [] then from else times[|times| - 1]
  }

  /** The invariant behind the window bound: once an admission has happened in the window, the
      potential has moved up one period per admission from the start of the window. */
  lemma {:induction false} WindowInvariant(
      l0: Level, from: int, burst: int, period: int, times: seq<int>, s: int, e: int)
    requires Parameters(burst, period) && LevelOk(l0, burst, from) && Monotone(from, times)
    ensures var l := LevelAfter(l0, burst, period, times);
            var n := AdmittedIn(l0, burst, period, times, s, e);
            && LevelOk(l, burst, LastTime(from, times))
            && (n >= 1 ==> s - period < Potential(l, period) - n * period)
            && (n >= 1 ==> s - period + n * period < burst * period + e)
  {
    hide Admit, Decay, Potential;
    if times == [] {
    } else {
      var k := |times| - 1;
      WindowInvariant(l0, from, burst, period, times[..k], s, e);
      assert Monotone(from, times[..k]);
      var l := LevelAfter(l0, burst, period, times[..k]);
      var n := AdmittedIn(l0, burst, period, times[..k], s, e);
      AdmitPotential(l, burst, period, times[k]);
      MulStep(n, period);
    }
  }

  /** A bucket admits fewer than `burst + 1 + (e - s) / period` of the requests made in any
      window [s, e], whatever happened before. */
  lemma {:induction false} WindowBound(l0: Level, from: int, burst: int, period: int, times: seq<int>, s: int, e: int)
    requires Parameters(burst, period) && LevelOk(l0, burst, from) && Monotone(from, times)
    requires s <= e
    ensures AdmittedIn(l0, burst, period, times, s, e) * period < (burst + 1) * period + (e - s)
  {
    WindowInvariant(l0, from, burst, period, times, s, e);
    MulStep(burst, period);
    MulMonotone(0, burst, period);
  }
}
