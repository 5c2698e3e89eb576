/** The challenge table behind `SV_GetChallenge` and the step of `SV_DirectConnect` that uses it. */
module Challenges {
  import opened CTypes
  import opened QueryGuards
  import RateLimitRuns

  const MAX_CHALLENGES := 1024

  /** `challenge_t`, with the fields of `x_challenge` that an eviction clears. */
  datatype Challenge = Challenge(
    adr: NetAdr, challenge: int, time: int, pingTime: int, firstTime: int, firstPing: int, connected: bool,
    canConnect: int, authRequested: bool, msgTime: int)

  /** `NET_CompareAdr`. Addresses of other types never compare equal, not even to themselves. */
  predicate CompareAdr(a: NetAdr, b: NetAdr) {
    if a.typ != b.typ then false
    else if a.typ == NA_LOOPBACK then true
    else if a.typ == NA_IP then a.ip == b.ip && a.port == b.port
    else if a.typ == NA_IPX then a.ipx == b.ipx && a.port == b.port
    else false
  }

  lemma CompareAdrIsSymmetric(a: NetAdr, b: NetAdr)
    ensures CompareAdr(a, b) == CompareAdr(b, a)
  {
  }

  /** The comparison is transitive, and reflexive for exactly three types. Senders of received
      packets are told apart by every byte of the address and by the port. */
  lemma {:induction false} CompareAdrMeaning(a: NetAdr, b: NetAdr, c: NetAdr)
    ensures CompareAdr(a, b) && CompareAdr(b, c) ==> CompareAdr(a, c)
    ensures CompareAdr(a, a) <==> a.typ == NA_LOOPBACK || a.typ == NA_IP || a.typ == NA_IPX
    ensures CompareAdr(a, b) ==> a.typ == b.typ
    ensures a.typ == NA_IP && b.typ == NA_IP ==>
              (CompareAdr(a, b) <==> a.port == b.port && forall i | 0 <= i < 4 :: a.ip[i] == b.ip[i])
    ensures a.typ == NA_IPX && b.typ == NA_IPX ==> (CompareAdr(a, b) <==> a.port == b.port && a.ipx == b.ipx)
    ensures a.typ == NA_LOOPBACK && b.typ == NA_LOOPBACK ==> CompareAdr(a, b)
  {
    assert (forall i | 0 <= i < 4 :: a.ip[i] == b.ip[i]) ==> a.ip == b.ip;
  }

  // ----- what a granted request does to the table -------------------------------------------

  predicate IsOpenFor(c: Challenge, from: NetAdr) {
    !c.connected && CompareAdr(from, c.adr)
  }

  /** The first unconnected entry of the sender from index `i` on, or the table size. */
  function FindOpen(table: seq<Challenge>, from: NetAdr, i: nat): (k: nat)
    requires i <= |table|
    ensures i <= k <= |table| && (k < |table| ==> IsOpenFor(table[k], from))
    ensures forall j | i <= j < k :: !IsOpenFor(table[j], from)
    decreases |table| - i
  {
    if i == |table| || IsOpenFor(table[i], from) then i else FindOpen(table, from, i + 1)
  }

  /** The scan's candidate for eviction among the first `n` entries. */
  function OldestOf(table: seq<Challenge>, n: nat): (k: nat)
    requires n <= |table|
    ensures n > 0 ==> k < n
  {
    if n == 0 then 0
    else
      var k := OldestOf(table, n - 1);
      if table[n - 1].time < (if n == 1 then INT_MAX else table[k].time) then n - 1 else k
  }

  function Evict(c: Challenge, from: NetAdr, time: int, random: int): Challenge {
    c.(adr := from, challenge := random, firstTime := time, firstPing := 0, time := time, connected := false,
       canConnect := 0, authRequested := false, msgTime := 0)
  }

  datatype Granted = Granted(table: seq<Challenge>, index: nat)

  function Grant(table: seq<Challenge>, from: NetAdr, time: int, random: int): Granted
    requires |table| == MAX_CHALLENGES
  {
    var open := FindOpen(table, from, 0);
    var i := if open < |table| then open else OldestOf(table, |table|);
    var entry := if open < |table| then table[i] else Evict(table[i], from, time, random);
    Granted(table[i := entry.(pingTime := time)], i)
  }

  predicate Fits(c: Challenge, from: NetAdr, challenge: int) {
    CompareAdr(from, c.adr) && c.challenge == challenge
  }

  /** The entry `SV_DirectConnect` accepts: the first with the sender's address and the number
      the client sends back. */
  function FindAnswered(table: seq<Challenge>, from: NetAdr, challenge: int, i: nat): (k: nat)
    requires i <= |table|
    ensures i <= k <= |table|
    ensures k < |table| ==> CompareAdr(from, table[k].adr) && table[k].challenge == challenge
    ensures forall j | i <= j < k :: !(CompareAdr(from, table[j].adr) && table[j].challenge == challenge)
    decreases |table| - i
  {
    if i == |table| || (CompareAdr(from, table[i].adr) && table[i].challenge == challenge) then i
    else FindAnswered(table, from, challenge, i + 1)
  }

  /** Its effect on the table once bans and pending authorization are out of the way: the entry is
      connected whether or not a slot is then found, and the ping measured on the way is cleared
      again only if it is. */
  function Connect(table: seq<Challenge>, from: NetAdr, challenge: int, time: int, admitted: bool): seq<Challenge> {
    var i := FindAnswered(table, from, challenge, 0);
    if i == |table| then table
    else
      var ping := if table[i].firstPing == 0 then time - table[i].pingTime else table[i].firstPing;
      table[i := table[i].(connected := true, firstPing := if admitted then 0 else ping)]
  }

  // ----- the imperative form ----------------------------------------------------------------

  datatype Reply = Dropped | ChallengeResponse(index: nat, challenge: int)

  class ChallengeTable {
    const challenges: array<Challenge>

    constructor ()
      ensures challenges.Length == MAX_CHALLENGES && fresh(challenges)
      ensures forall i | 0 <= i < MAX_CHALLENGES :: challenges[i] == BLANK
    {
      challenges := new Challenge[MAX_CHALLENGES](_ => BLANK);
    }

    /** `SV_GetChallenge`. `time` is the server time, `lookup`, `requestNow` and `now` the clock
        readings of the guard, `random` the number drawn for a new challenge. */
    method GetChallenge(guard: QueryGuard, from: NetAdr, time: int, random: int, lookup: int, requestNow: int, now: int)
        returns (reply: Reply)
      requires challenges.Length == MAX_CHALLENGES && from.typ != 0 && guard.Valid()
      requires forall i | 0 <= i < challenges.Length :: challenges[i].time <= INT_MAX
      modifies challenges, guard.limiter`model, guard.limiter.buckets, guard.limiter.bucketHashes,
               guard.outbound, guard.rcon
      ensures guard.Valid()
      ensures Passed(guard.GetGuards(), reply.ChallengeResponse?)
              == Pass(old(guard.GetGuards()), Query(Public, RateLimitRuns.Request(from, lookup, requestNow), now))
      ensures reply.Dropped? ==> challenges[..] == old(challenges[..])
      ensures reply.ChallengeResponse? ==>
                && Granted(challenges[..], reply.index) == Grant(old(challenges[..]), from, time, random)
                && reply.challenge == challenges[reply.index].challenge
    {
      hide Pass;
      var answered := guard.Check(Public, from, lookup, requestNow, now);
      if !answered {
        return Dropped;
      }
      var i := Reserve(from, time, random);
      return ChallengeResponse(i, challenges[i].challenge);
    }

    /** The scan for an open entry or the oldest one, and the write. */
    method Reserve(from: NetAdr, time: int, random: int) returns (i: nat)
      requires challenges.Length == MAX_CHALLENGES
      requires forall i | 0 <= i < challenges.Length :: challenges[i].time <= INT_MAX
      modifies challenges
      ensures i < MAX_CHALLENGES
      ensures Granted(challenges[..], i) == Grant(old(challenges[..]), from, time, random)
    {
      var oldestTime, oldest := INT_MAX, 0;
      i := 0;
      while i < MAX_CHALLENGES
        invariant 0 <= i <= MAX_CHALLENGES && challenges[..] == old(challenges[..])
        invariant FindOpen(challenges[..], from, 0) == FindOpen(challenges[..], from, i)
        invariant oldest == OldestOf(challenges[..], i) && oldest < MAX_CHALLENGES
        invariant oldestTime == (if i == 0 then INT_MAX else challenges[oldest].time)
      {
        if !challenges[i].connected && CompareAdr(from, challenges[i].adr) {
          break;
        }
        if challenges[i].time < oldestTime {
          oldest := i;
          oldestTime := challenges[i].time;
        }
        i := i + 1;
      }
      if i == MAX_CHALLENGES {
        challenges[oldest] := challenges[oldest].(challenge := random);
        challenges[oldest] := challenges[oldest].(adr := from);
        challenges[oldest] := challenges[oldest].(firstTime := time);
        challenges[oldest] := challenges[oldest].(firstPing := 0);
        challenges[oldest] := challenges[oldest].(time := time);
        challenges[oldest] := challenges[oldest].(connected := false);
        challenges[oldest] := challenges[oldest].(canConnect := 0, authRequested := false, msgTime := 0);
        i := oldest;
      }
      challenges[i] := challenges[i].(pingTime := time);
    }

    /** The table's part of `SV_DirectConnect`. `admitted` says whether the client gets a slot. */
    method DirectConnect(from: NetAdr, challenge: int, time: int, admitted: bool) returns (found: bool)
      requires challenges.Length == MAX_CHALLENGES
      modifies challenges
      ensures challenges[..] == Connect(old(challenges[..]), from, challenge, time, admitted)
      ensures found <==> exists i | 0 <= i < MAX_CHALLENGES :: old(Fits(challenges[i], from, challenge))
    {
      var i := 0;
      while i < MAX_CHALLENGES
        invariant 0 <= i <= MAX_CHALLENGES && challenges[..] == old(challenges[..])
        invariant FindAnswered(challenges[..], from, challenge, 0) == FindAnswered(challenges[..], from, challenge, i)
      {
        if CompareAdr(from, challenges[i].adr) && challenges[i].challenge == challenge {
          break;
        }
        i := i + 1;
      }
      if i == MAX_CHALLENGES {
        return false;
      }
      assert old(Fits(challenges[i], from, challenge));
      if challenges[i].firstPing == 0 {
        challenges[i] := challenges[i].(firstPing := time - challenges[i].pingTime);
      }
      challenges[i] := challenges[i].(connected := true);
      if admitted {
        challenges[i] := challenges[i].(firstPing := 0);
      }
      return true;
    }
  }

  const BLANK := Challenge(NetAdr(0, [0, 0, 0, 0], [], 0), 0, 0, 0, 0, 0, false, 0, false, 0)

  // ----- one request ------------------------------------------------------------------------

  lemma {:induction false} OldestIsOldest(table: seq<Challenge>, n: nat)
    requires n <= |table| && forall i | 0 <= i < |table| :: table[i].time <= INT_MAX
    ensures forall j | 0 <= j < n :: table[OldestOf(table, n)].time <= table[j].time
    ensures forall j | 0 <= j < OldestOf(table, n) :: table[OldestOf(table, n)].time < table[j].time
  {
    if n == 0 {
    } else {
      OldestIsOldest(table, n - 1);
    }
  }

  ghost predicate NoDuplicates(table: seq<Challenge>) {
    forall i, j | 0 <= i < j < |table| && !table[i].connected && !table[j].connected ::
      !CompareAdr(table[i].adr, table[j].adr)
  }

  /** A granted request ends with an entry of the sender that is not connected, keeps every
      other entry, reuses the sender's open entry if there is one, and otherwise evicts an entry
      than which none is older. No two open entries share an address. */
  lemma {:induction false} GrantMeaning(table: seq<Challenge>, from: NetAdr, time: int, random: int)
    requires |table| == MAX_CHALLENGES && NoDuplicates(table)
    requires forall i | 0 <= i < |table| :: table[i].time <= INT_MAX
    ensures var g := Grant(table, from, time, random);
            && |g.table| == MAX_CHALLENGES && g.index < MAX_CHALLENGES && NoDuplicates(g.table)
            && !g.table[g.index].connected && (CompareAdr(from, from) ==> CompareAdr(from, g.table[g.index].adr))
            && (forall i | 0 <= i < MAX_CHALLENGES && i != g.index :: g.table[i] == table[i])
            && (if exists i :: 0 <= i < MAX_CHALLENGES && IsOpenFor(table[i], from)
                then IsOpenFor(table[g.index], from) && g.table[g.index] == table[g.index].(pingTime := time)
                else g.table[g.index] == Challenge(from, random, time, time, time, 0, false, 0, false, 0)
                     && (forall i | 0 <= i < MAX_CHALLENGES :: table[g.index].time <= table[i].time)
                     && forall i | 0 <= i < g.index :: table[g.index].time < table[i].time)
  {
    var g := Grant(table, from, time, random);
    OldestIsOldest(table, |table|);
    forall i, j | 0 <= i < j < |g.table| && !g.table[i].connected && !g.table[j].connected
      ensures !CompareAdr(g.table[i].adr, g.table[j].adr)
    {
      if FindOpen(table, from, 0) == |table| {
        var other := if i == g.index then j else i;
        CompareAdrIsSymmetric(g.table[i].adr, g.table[j].adr);
        assert i == g.index || j == g.index ==> !IsOpenFor(table[other], from);
      }
    }
  }

  // ----- one connection ---------------------------------------------------------------------

  /** A connection is refused exactly if no entry has the sender's address and number. Otherwise the
      first that has them is connected, and its ping is settled: cleared for a client that gets a
      slot, and for one that does not, the time since the request unless it was measured before.
      No other entry changes. */
  lemma {:induction false} ConnectMeaning(table: seq<Challenge>, from: NetAdr, n: int, time: int, admitted: bool)
    returns (i: nat)
    ensures i <= |table|
    ensures var r := Connect(table, from, n, time, admitted);
            && |r| == |table|
            && (forall j | 0 <= j < i :: !Fits(table[j], from, n))
            && (if i == |table| then r == table
                else
                  && Fits(table[i], from, n)
                  && (forall j | 0 <= j < |table| && j != i :: r[j] == table[j])
                  && r[i].connected && r[i].adr == table[i].adr && r[i].challenge == n
                  && r[i].time == table[i].time && r[i].pingTime == table[i].pingTime
                  && (admitted ==> r[i].firstPing == 0)
                  && (!admitted && table[i].firstPing != 0 ==> r[i].firstPing == table[i].firstPing)
                  && (!admitted && table[i].firstPing == 0 ==> r[i].firstPing == time - table[i].pingTime))
  {
    i := FindAnswered(table, from, n, 0);
  }

  ghost predicate OpenFor(table: seq<Challenge>, from: NetAdr) {
    exists i | 0 <= i < |table| :: IsOpenFor(table[i], from)
  }

  ghost predicate Matches(table: seq<Challenge>, from: NetAdr, n: int, i: int) {
    0 <= i < |table| && Fits(table[i], from, n) && forall j | 0 <= j < i :: !Fits(table[j], from, n)
  }

  /** A connection closes the sender's open entry exactly if that is the one it matches. */
  lemma {:induction false} ConnectCloses(table: seq<Challenge>, from: NetAdr, n: int, time: int, admitted: bool)
    requires NoDuplicates(table)
    ensures OpenFor(Connect(table, from, n, time, admitted), from)
            <==> OpenFor(table, from) && !exists i :: Matches(table, from, n, i) && IsOpenFor(table[i], from)
  {
    var r := Connect(table, from, n, time, admitted);
    var i := ConnectMeaning(table, from, n, time, admitted);
    forall k | 0 <= k < |table| && IsOpenFor(table[k], from)
      ensures forall j | 0 <= j < |table| && IsOpenFor(table[j], from) :: j == k
    {
      forall j | 0 <= j < |table| && IsOpenFor(table[j], from)
        ensures j == k
      {
        CompareAdrIsSymmetric(from, table[j].adr);
        CompareAdrIsSymmetric(from, table[k].adr);
        CompareAdrMeaning(table[j].adr, from, table[k].adr);
        CompareAdrMeaning(table[k].adr, from, table[j].adr);
      }
    }
    forall j | Matches(table, from, n, j)
      ensures j == i
    {
    }
    forall k | 0 <= k < |table| && k != i
      ensures IsOpenFor(r[k], from) <==> IsOpenFor(table[k], from)
    {
    }
    if i < |table| {
      assert Matches(table, from, n, i) && !IsOpenFor(r[i], from);
    }
    hide CompareAdr, NoDuplicates, Connect;
  }

  // ----- runs -------------------------------------------------------------------------------

  datatype Event = Request(from: NetAdr, time: int, random: int)
    | Connection(from: NetAdr, challenge: int, time: int, admitted: bool)

  function TableAfter(events: seq<Event>): (t: seq<Challenge>)
    ensures |t| == MAX_CHALLENGES
  {
    if events == [] then seq(MAX_CHALLENGES, _ => BLANK)
    else
      var before := TableAfter(events[..|events| - 1]);
      match events[|events| - 1]
      case Request(from, time, random) => Grant(before, from, time, random).table
      case Connection(from, challenge, time, admitted) => Connect(before, from, challenge, time, admitted)
  }

  /** In every run of requests and connections no address has two open entries. */
  lemma {:induction false} NeverDuplicates(events: seq<Event>)
    requires forall e | e in events && e.Request? :: e.time <= INT_MAX
    ensures NoDuplicates(TableAfter(events))
    ensures forall i | 0 <= i < MAX_CHALLENGES :: TableAfter(events)[i].time <= INT_MAX
  {
    if events == [] {
    } else {
      var before := TableAfter(events[..|events| - 1]);
      NeverDuplicates(events[..|events| - 1]);
      var e := events[|events| - 1];
      if e.Request? {
        GrantMeaning(before, e.from, e.time, e.random);
        assert e in events;
      }
    }
  }

  ghost predicate Dated(events: seq<Event>) {
    forall e | e in events && e.Request? :: e.time <= INT_MAX
  }

  lemma {:induction false} OneMore(events: seq<Event>, e: Event)
    requires Dated(events) && (e.Request? ==> e.time <= INT_MAX)
    ensures Dated(events + [e])
    ensures TableAfter(events + [e])
            == match e
               case Request(from, time, random) => Grant(TableAfter(events), from, time, random).table
               case Connection(from, n, time, admitted) => Connect(TableAfter(events), from, n, time, admitted)
  {
    assert (events + [e])[..|events|] == events;
    assert (events + [e])[|events|] == e;
  }

  /** The handshake, after any run: once a connection has matched the sender's open entry, none is
      open for it, and its next request gets a number of its own in an oldest entry. */
  lemma {:induction false} HandshakeCloses(
      events: seq<Event>, from: NetAdr, n: int, i: int, at: int, admitted: bool, time: int, random: int)
    requires Dated(events) && time <= INT_MAX
    requires Matches(TableAfter(events), from, n, i) && IsOpenFor(TableAfter(events)[i], from)
    ensures var connected := TableAfter(events + [Connection(from, n, at, admitted)]);
            var g := Grant(connected, from, time, random);
            && !OpenFor(connected, from) && connected[i].connected
            && TableAfter(events + [Connection(from, n, at, admitted)] + [Request(from, time, random)]) == g.table
            && g.table[g.index] == Challenge(from, random, time, time, time, 0, false, 0, false, 0)
            && forall j | 0 <= j < MAX_CHALLENGES :: connected[g.index].time <= connected[j].time
  {
    var c := Connection(from, n, at, admitted);
    OneMore(events, c);
    OneMore(events + [c], Request(from, time, random));
    NeverDuplicates(events);
    NeverDuplicates(events + [c]);
    ConnectCloses(TableAfter(events), from, n, at, admitted);
    var k := ConnectMeaning(TableAfter(events), from, n, at, admitted);
    GrantMeaning(TableAfter(events + [c]), from, time, random);
    hide Connect, Grant, NoDuplicates, TableAfter, IsOpenFor, Fits;
  }

  /** Before the connection, the same request is answered with the number it already has. */
  lemma {:induction false} AskingAgain(events: seq<Event>, from: NetAdr, time: int, random: int, later: int, other: int)
    requires Dated(events) && time <= INT_MAX && later <= INT_MAX && CompareAdr(from, from)
    ensures var g := Grant(TableAfter(events), from, time, random);
            var again := Grant(TableAfter(events + [Request(from, time, random)]), from, later, other);
            again.index == g.index && again.table[again.index] == g.table[g.index].(pingTime := later)
  {
    OneMore(events, Request(from, time, random));
    NeverDuplicates(events);
    NeverDuplicates(events + [Request(from, time, random)]);
    var t := TableAfter(events);
    var g := Grant(t, from, time, random);
    GrantMeaning(t, from, time, random);
    GrantMeaning(g.table, from, later, other);
    var again := Grant(g.table, from, later, other);
    assert IsOpenFor(g.table[g.index], from) && IsOpenFor(g.table[again.index], from);
    CompareAdrIsSymmetric(from, g.table[g.index].adr);
    CompareAdrIsSymmetric(from, g.table[again.index].adr);
    CompareAdrMeaning(g.table[g.index].adr, from, g.table[again.index].adr);
    CompareAdrMeaning(g.table[again.index].adr, from, g.table[g.index].adr);
    assert NoDuplicates(g.table);
    hide Grant, TableAfter;
  }
}
