/** The two gates in front of every connectionless query: the limiter of the sender's address, and
    a bucket shared by all senders. What they let out is bounded for each address and in all. */
module QueryGuards {
  import opened CTypes
  import opened LeakyBuckets
  import opened BucketModel
  import opened BucketTables
  import opened RateLimitRuns

  const BURST := 10
  const PERIOD := 1000
  const OUTBOUND_PERIOD := 100

  /** Status, info and challenge queries share the outbound bucket; a remote command with the wrong
      password is charged to a bucket of its own, one with the right password to neither. */
  datatype Kind = Public | WrongPassword | RightPassword

  /** A query, with the clock reading of the second gate. */
  datatype Query = Query(kind: Kind, request: Request, now: int)

  datatype Guards = Guards(table: Table, outbound: Level, rcon: Level)

  datatype Passed = Passed(guards: Guards, answered: bool)

  function Pass(g: Guards, q: Query): Passed
    requires WellFormed(g.table) && q.request.from.typ != 0
  {
    var r := q.request;
    var served := Serve(g.table, r.from, BURST, PERIOD, r.lookup, r.now);
    var g' := g.(table := served.table);
    if served.limited then Passed(g', false)
    else
      match q.kind
      case Public =>
        var v := Admit(g.outbound, BURST, OUTBOUND_PERIOD, q.now);
        Passed(g'.(outbound := v.level), !v.limited)
      case WrongPassword =>
        var v := Admit(g.rcon, BURST, PERIOD, q.now);
        Passed(g'.(rcon := v.level), !v.limited)
      case RightPassword => Passed(g', true)
  }

  class QueryGuard {
    const limiter: BucketTable
    const outbound: LeakyBucket
    const rcon: LeakyBucket

    ghost predicate Valid()
      reads limiter, limiter.buckets, limiter.bucketHashes
    {
      limiter.Valid() && outbound != rcon && outbound !in limiter.buckets && rcon !in limiter.buckets
    }

    ghost function GetGuards(): Guards
      reads limiter, outbound, rcon
    {
      Guards(limiter.model, outbound.GetLevel(), rcon.GetLevel())
    }

    constructor ()
      ensures Valid() && GetGuards() == Initial()
      ensures fresh(limiter) && fresh(limiter.buckets) && fresh(limiter.bucketHashes) && fresh(outbound) && fresh(rcon)
    {
      var table := new BucketTable();
      var b0 := new LeakyBucket();
      var b1 := new LeakyBucket();
      limiter, outbound, rcon := table, b0, b1;
    }

    /** The guard at the top of `SVC_Info`, `SVC_Status`, `SV_GetChallenge` and `SVC_RemoteCommand`. */
    method Check(kind: Kind, from: NetAdr, lookup: int, requestNow: int, now: int) returns (answered: bool)
      requires Valid() && from.typ != 0
      modifies limiter`model, limiter.buckets, limiter.bucketHashes, outbound, rcon
      ensures Valid()
      ensures Passed(GetGuards(), answered)
              == Pass(old(GetGuards()), Query(kind, Request(from, lookup, requestNow), now))
    {
      hide WellFormed, Serve, Admit;
      var limited := limiter.RateLimitAddress(from, BURST, PERIOD, lookup, requestNow);
      if limited {
        return false;
      }
      if kind == Public {
        limited := RateLimit(outbound, BURST, OUTBOUND_PERIOD, now);
      } else if kind == WrongPassword {
        limited := RateLimit(rcon, BURST, PERIOD, now);
      }
      return !limited;
    }
  }

  // ----- runs -------------------------------------------------------------------------------

  function Initial(): Guards {
    Guards(EmptyTable(), Level(0, 0), Level(0, 0))
  }

  /** The requests of a run, as the address limiter sees them. */
  function Requests(qs: seq<Query>): (r: seq<Request>)
    ensures |r| == |qs| && forall i | 0 <= i < |qs| :: r[i] == qs[i].request
  {
    seq(|qs|, i requires 0 <= i < |qs| => qs[i].request)
  }

  /** One monotone clock. */
  ghost predicate Timed(qs: seq<Query>) {
    && Plausible(Requests(qs))
    && (forall i | 0 <= i < |qs| :: qs[i].request.now <= qs[i].now)
    && (forall i, j | 0 <= i < j < |qs| :: qs[i].now <= qs[j].request.lookup)
  }

  lemma TimedPrefix(qs: seq<Query>, n: nat)
    requires Timed(qs) && n <= |qs|
    ensures Timed(qs[..n]) && Requests(qs[..n]) == Requests(qs)[..n]
  {
  }

  function After(qs: seq<Query>): (g: Guards)
    requires Timed(qs)
    ensures g.table == TableAfter(Requests(qs), BURST, PERIOD)
  {
    hide Serve, Admit;
    if qs == [] then Initial()
    else
      var n := |qs| - 1;
      TimedPrefix(qs, n);
      Pass(After(qs[..n]), qs[n]).guards
  }

  predicate LastAnswered(qs: seq<Query>)
    requires Timed(qs) && qs != []
  {
    var n := |qs| - 1;
    TimedPrefix(qs, n);
    Pass(After(qs[..n]), qs[n]).answered
  }

  /** How many queries of an address made in the window [s, e] were answered. */
  function Answers(qs: seq<Query>, ip: Ip, s: int, e: int): nat
    requires Timed(qs)
  {
    if qs == [] then 0
    else
      var n := |qs| - 1;
      TimedPrefix(qs, n);
      Answers(qs[..n], ip, s, e)
      + if qs[n].request.from.ip == ip && s <= qs[n].request.now <= e && LastAnswered(qs) then 1 else 0
  }

  /** How many queries of one kind, from any address, were answered in the window [s, e]. */
  function AnswersOfKind(qs: seq<Query>, kind: Kind, s: int, e: int): nat
    requires Timed(qs)
  {
    if qs == [] then 0
    else
      var n := |qs| - 1;
      TimedPrefix(qs, n);
      AnswersOfKind(qs[..n], kind, s, e)
      + if qs[n].kind == kind && s <= qs[n].now <= e && LastAnswered(qs) then 1 else 0
  }

  lemma {:induction false} AnswersAreAdmitted(qs: seq<Query>, ip: Ip, s: int, e: int)
    requires Timed(qs)
    ensures Answers(qs, ip, s, e) <= Admitted(Requests(qs), ip, BURST, PERIOD, 0, s, e)
  {
    if qs == [] {
    } else {
      var n := |qs| - 1;
      TimedPrefix(qs, n);
      AnswersAreAdmitted(qs[..n], ip, s, e);
    }
  }

  /** The times at which the shared bucket of a kind is charged. */
  function Charges(qs: seq<Query>, kind: Kind): seq<int>
    requires Timed(qs)
  {
    if qs == [] then []
    else
      var n := |qs| - 1;
      TimedPrefix(qs, n);
      Charges(qs[..n], kind)
      + if qs[n].kind == kind && LastAdmitted(Requests(qs), BURST, PERIOD) then [qs[n].now] else []
  }

  function LastCheck(qs: seq<Query>): int {
    if qs == [] then 0 else qs[|qs| - 1].now
  }

  lemma {:induction false} ChargesAreTimed(qs: seq<Query>, kind: Kind)
    requires Timed(qs)
    ensures Monotone(0, Charges(qs, kind))
    ensures forall i | 0 <= i < |Charges(qs, kind)| :: Charges(qs, kind)[i] <= LastCheck(qs)
  {
    if qs == [] {
    } else {
      var n := |qs| - 1;
      TimedPrefix(qs, n);
      ChargesAreTimed(qs[..n], kind);
      ClockAdvances(qs);
      LastCharge(qs, kind);
      MonotoneAppend(Charges(qs[..n], kind), LastCheck(qs[..n]), qs[n].now);
      hide Timed, LastAdmitted, Charges, Charged, Monotone;
    }
  }

  lemma MonotoneAppend(times: seq<int>, last: int, t: int)
    requires Monotone(0, times) && 0 <= last <= t && forall i | 0 <= i < |times| :: times[i] <= last
    ensures Monotone(0, times + [t]) && forall i | 0 <= i <= |times| :: (times + [t])[i] <= t
  {
  }

  lemma {:induction false} ClockAdvances(qs: seq<Query>)
    requires Timed(qs) && qs != []
    ensures 0 <= LastCheck(qs[..|qs| - 1]) <= qs[|qs| - 1].now
  {
    var n := |qs| - 1;
    assert Requests(qs)[n] == qs[n].request;
    if n > 0 {
      assert Requests(qs)[n - 1] == qs[n - 1].request;
    }
  }

  function SharedPeriod(kind: Kind): int {
    if kind == Public then OUTBOUND_PERIOD else PERIOD
  }

  function SharedLevel(g: Guards, kind: Kind): Level {
    if kind == Public then g.outbound else g.rcon
  }

  lemma StartOk()
    ensures LevelOk(Level(0, 0), BURST, 0) && Parameters(BURST, OUTBOUND_PERIOD) && Parameters(BURST, PERIOD)
  {
  }

  predicate Charged(qs: seq<Query>, kind: Kind)
    requires Timed(qs) && qs != []
  {
    qs[|qs| - 1].kind == kind && LastAdmitted(Requests(qs), BURST, PERIOD)
  }

  /** One query, as the shared bucket of a kind sees it. */
  lemma {:induction false} PassMeaning(g: Guards, q: Query, kind: Kind)
    requires WellFormed(g.table) && q.request.from.typ != 0 && kind != RightPassword
    ensures var r := q.request;
            var charged := q.kind == kind && !Serve(g.table, r.from, BURST, PERIOD, r.lookup, r.now).limited;
            var l := SharedLevel(g, kind);
            var v := Admit(l, BURST, SharedPeriod(kind), q.now);
            && SharedLevel(Pass(g, q).guards, kind) == (if charged then v.level else l)
            && (q.kind == kind ==> (Pass(g, q).answered <==> charged && !v.limited))
  {
    hide Serve, Admit, WellFormed;
  }

  lemma {:induction false} LastServed(qs: seq<Query>)
    requires Timed(qs) && qs != [] && Timed(qs[..|qs| - 1])
    ensures var g, q := After(qs[..|qs| - 1]), qs[|qs| - 1];
            && WellFormed(g.table) && q.request.from.typ != 0
            && After(qs) == Pass(g, q).guards && LastAnswered(qs) == Pass(g, q).answered
            && (LastAdmitted(Requests(qs), BURST, PERIOD)
                <==> !Serve(g.table, q.request.from, BURST, PERIOD, q.request.lookup, q.request.now).limited)
  {
    TimedPrefix(qs, |qs| - 1);
    hide Serve, Admit, Pass, WellFormed;
  }

  lemma {:induction false} LastPass(qs: seq<Query>, kind: Kind)
    requires Timed(qs) && qs != [] && kind != RightPassword && Timed(qs[..|qs| - 1])
    ensures var q := qs[|qs| - 1];
            var l := SharedLevel(After(qs[..|qs| - 1]), kind);
            var v := Admit(l, BURST, SharedPeriod(kind), q.now);
            && SharedLevel(After(qs), kind) == (if Charged(qs, kind) then v.level else l)
            && (q.kind == kind ==> (LastAnswered(qs) <==> Charged(qs, kind) && !v.limited))
  {
    LastServed(qs);
    PassMeaning(After(qs[..|qs| - 1]), qs[|qs| - 1], kind);
    hide Serve, Admit, Timed, Pass, After, LastAnswered, LastAdmitted, SharedLevel, WellFormed;
  }

  /** The shared bucket of a kind has no room left for a query at this time. */
  predicate SharedFull(g: Guards, kind: Kind, now: int) {
    Decay(SharedLevel(g, kind), SharedPeriod(kind), now).burst >= BURST
  }

  /** A query is answered exactly if the limiter of its address admits it and, unless it brings the
      right password, the shared bucket of its kind has room. A shared bucket that is not consulted
      keeps its level. */
  lemma {:induction false} AnsweredIff(qs: seq<Query>)
    requires Timed(qs) && qs != [] && Timed(qs[..|qs| - 1])
    ensures var g, q := After(qs[..|qs| - 1]), qs[|qs| - 1];
            var admitted := LastAdmitted(Requests(qs), BURST, PERIOD);
            && (LastAnswered(qs) <==> admitted && (q.kind == RightPassword || !SharedFull(g, q.kind, q.now)))
            && (q.kind != Public || !admitted ==> After(qs).outbound == g.outbound)
            && (q.kind != WrongPassword || !admitted ==> After(qs).rcon == g.rcon)
  {
    var g, q := After(qs[..|qs| - 1]), qs[|qs| - 1];
    LastServed(qs);
    PassExactly(g, q);
    hide Serve, Admit, Timed, Pass, After, LastAnswered, LastAdmitted, SharedLevel, SharedPeriod, WellFormed, Decay;
  }

  lemma {:induction false} PassExactly(g: Guards, q: Query)
    requires WellFormed(g.table) && q.request.from.typ != 0
    ensures var r := q.request;
            var admitted := !Serve(g.table, r.from, BURST, PERIOD, r.lookup, r.now).limited;
            && (Pass(g, q).answered <==> admitted && (q.kind == RightPassword || !SharedFull(g, q.kind, q.now)))
            && (q.kind != Public || !admitted ==> Pass(g, q).guards.outbound == g.outbound)
            && (q.kind != WrongPassword || !admitted ==> Pass(g, q).guards.rcon == g.rcon)
  {
    hide Serve, Decay, WellFormed;
  }

  /** Nobody goes unanswered without cause: either the address limiter has one, or the query is not
      a remote command with the right password and the shared bucket of its kind is full. */
  lemma {:induction false} UnansweredHasCause(qs: seq<Query>) returns (j: nat)
    requires Timed(qs) && qs != [] && Timed(qs[..|qs| - 1]) && !LastAnswered(qs)
    ensures var reqs, q := Requests(qs), qs[|qs| - 1];
            && Plausible(reqs[..|reqs| - 1])
            && (|| ArenaFull(reqs, BURST, PERIOD)
                || AllowanceSpent(reqs, BURST, PERIOD, j)
                || (q.kind != RightPassword && SharedFull(After(qs[..|qs| - 1]), q.kind, q.now)))
  {
    j := 0;
    AnsweredIff(qs);
    PrefixPlausible(Requests(qs));
    if !LastAdmitted(Requests(qs), BURST, PERIOD) {
      j := RefusalHasCause(Requests(qs), BURST, PERIOD);
    }
    hide Timed, LastAnswered, LastAdmitted, After, ArenaFull, AllowanceSpent, SharedFull;
  }

  lemma {:induction false} OneMoreCharge(l: Level, period: int, times: seq<int>, t: int, s: int, e: int)
    requires period > 0
    ensures var v := Admit(LevelAfter(l, BURST, period, times), BURST, period, t);
            && LevelAfter(l, BURST, period, times + [t]) == v.level
            && AdmittedIn(l, BURST, period, times + [t], s, e)
               == AdmittedIn(l, BURST, period, times, s, e) + if s <= t <= e && !v.limited then 1 else 0
  {
    assert (times + [t])[..|times|] == times;
    hide Admit;
  }

  /** The shared bucket of a kind is exactly the bucket charged at those times, and the answers
      are exactly what it admits. */
  lemma {:induction false} SharedBucket(qs: seq<Query>, kind: Kind, s: int, e: int)
    requires Timed(qs) && kind != RightPassword
    ensures SharedLevel(After(qs), kind) == LevelAfter(Level(0, 0), BURST, SharedPeriod(kind), Charges(qs, kind))
    ensures AnswersOfKind(qs, kind, s, e) == AdmittedIn(Level(0, 0), BURST, SharedPeriod(kind), Charges(qs, kind), s, e)
  {
    if qs == [] {
    } else {
      var n := |qs| - 1;
      TimedPrefix(qs, n);
      SharedBucket(qs[..n], kind, s, e);
      SharedStep(qs, kind, s, e);
    }
  }

  lemma {:induction false} SharedStep(qs: seq<Query>, kind: Kind, s: int, e: int)
    requires Timed(qs) && kind != RightPassword && qs != [] && Timed(qs[..|qs| - 1])
    requires var before, period := qs[..|qs| - 1], SharedPeriod(kind);
             && SharedLevel(After(before), kind) == LevelAfter(Level(0, 0), BURST, period, Charges(before, kind))
             && AnswersOfKind(before, kind, s, e) == AdmittedIn(Level(0, 0), BURST, period, Charges(before, kind), s, e)
    ensures SharedLevel(After(qs), kind) == LevelAfter(Level(0, 0), BURST, SharedPeriod(kind), Charges(qs, kind))
    ensures AnswersOfKind(qs, kind, s, e) == AdmittedIn(Level(0, 0), BURST, SharedPeriod(kind), Charges(qs, kind), s, e)
  {
    var before, q := qs[..|qs| - 1], qs[|qs| - 1];
    LastCharge(qs, kind);
    LastAnswer(qs, kind, s, e);
    LastPass(qs, kind);
    OneMoreCharge(Level(0, 0), SharedPeriod(kind), Charges(before, kind), q.now, s, e);
    hide Timed, Admit, LevelAfter, After, LastAnswered, SharedLevel, SharedPeriod, AdmittedIn, Charges, AnswersOfKind;
  }

  lemma {:induction false} LastCharge(qs: seq<Query>, kind: Kind)
    requires Timed(qs) && qs != [] && Timed(qs[..|qs| - 1])
    ensures Charges(qs, kind)
            == Charges(qs[..|qs| - 1], kind) + if Charged(qs, kind) then [qs[|qs| - 1].now] else []
    ensures !Charged(qs, kind) ==> Charges(qs, kind) == Charges(qs[..|qs| - 1], kind)
  {
  }

  lemma {:induction false} LastAnswer(qs: seq<Query>, kind: Kind, s: int, e: int)
    requires Timed(qs) && qs != [] && Timed(qs[..|qs| - 1])
    ensures var q := qs[|qs| - 1];
            AnswersOfKind(qs, kind, s, e)
            == AnswersOfKind(qs[..|qs| - 1], kind, s, e)
               + if q.kind == kind && s <= q.now <= e && LastAnswered(qs) then 1 else 0
  {
  }

  /** No amplification. In every run of queries, whoever sends them, the answers to one address
      in any window of `d` milliseconds number less than `11 + d / 1000`. */
  lemma {:induction false} AnswersToAddress(qs: seq<Query>, ip: Ip, s: int, e: int)
    requires Timed(qs) && s <= e
    ensures Answers(qs, ip, s, e) * 1000 < 11000 + (e - s)
  {
    AnswersAreAdmitted(qs, ip, s, e);
    RateBound(Requests(qs), ip, BURST, PERIOD, s, e);
  }

  /** All public answers together number less than `11 + d / 100`, and the remote commands with a
      wrong password that get as far as being refused less than `11 + d / 1000`. */
  lemma {:induction false} AnswersInAll(qs: seq<Query>, kind: Kind, s: int, e: int)
    requires Timed(qs) && kind != RightPassword && s <= e
    ensures kind == Public ==> AnswersOfKind(qs, kind, s, e) * 100 < 1100 + (e - s)
    ensures kind == WrongPassword ==> AnswersOfKind(qs, kind, s, e) * 1000 < 11000 + (e - s)
  {
    SharedBucket(qs, kind, s, e);
    ChargesAreTimed(qs, kind);
    StartOk();
    WindowBound(Level(0, 0), 0, BURST, SharedPeriod(kind), Charges(qs, kind), s, e);
  }
}
