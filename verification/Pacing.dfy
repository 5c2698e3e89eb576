/** Pacing of server messages: what a message costs in milliseconds, when the next one is due, and
    the bandwidth bound that follows for a remote client. */
module Pacing {
  import opened CTypes

  const HEADER_RATE_BYTES := 48
  const MAX_PACED_SIZE := 1500
  const MIN_RATE := 1000
  const MAX_RATE := 90000
  const DEFAULT_RATE := 5000
  const CONNECTING_MSEC := 1000
  const DOWNLOAD_WINDOW := 8

  /** What `sv_maxRate` and the client's own rate amount to. Zero means no server limit. */
  function EffectiveRate(rate: int, maxRate: int): int {
    if maxRate == 0 then rate else Min(rate, Max(maxRate, MIN_RATE))
  }

  /** The bytes charged for a message, in thousandths. */
  function Cost(messageSize: int): int {
    (Min(messageSize, MAX_PACED_SIZE) + HEADER_RATE_BYTES) * 1000
  }

  function RateMsecOf(rate: int, maxRate: int, messageSize: int): int
    requires MIN_RATE <= rate
  {
    TruncDiv(Cost(messageSize), EffectiveRate(rate, maxRate))
  }

  /** The fields of `client_t` that pacing reads and writes. `local` stands for a loopback or LAN
      address. */
  datatype Pace = Pace(
    state: ClientState, rate: int, snapshotMsec: int, nextSnapshotTime: int, rateDelayed: bool,
    local: bool, hasDownloadName: bool, download: bool)

  /** `custom_SV_SendMessageToClient`, after the message is on the wire. */
  function AfterSend(p: Pace, maxRate: int, fastDownload: bool, now: int, size: int): Pace
    requires MIN_RATE <= p.rate
  {
    if p.local || (fastDownload && p.download) then p.(nextSnapshotTime := now - 1)
    else
      var rateMsec := RateMsecOf(p.rate, maxRate, size);
      var due := now + Max(rateMsec, p.snapshotMsec);
      p.(rateDelayed := rateMsec >= p.snapshotMsec,
         nextSnapshotTime := if p.state != ACTIVE && !p.hasDownloadName then Max(due, now + CONNECTING_MSEC) else due)
  }

  predicate Due(p: Pace, now: int) {
    p.state != FREE && p.nextSnapshotTime <= now
  }

  /** What a client is about to be sent: `unsent` bytes of a message sent in part, if there are any,
      and otherwise a snapshot of this compressed size. */
  datatype Outgoing = Outgoing(size: int, unsent: Option<int>)

  function Charged(out: Outgoing): int {
    if out.unsent.Some? then out.unsent.value else out.size
  }

  /** How many snapshots a client that downloads fast is sent in one frame. */
  function Snapshots(fps: int): int {
    1 + TruncDiv(fps, 20) * DOWNLOAD_WINDOW
  }

  /** A client's turn in the loop, when it is due. */
  function Turn(p: Pace, maxRate: int, fastDownload: bool, fps: int, now: int, out: Outgoing): Pace
    requires MIN_RATE <= p.rate
  {
    if fastDownload && p.download then
      if Snapshots(fps) > 0 then AfterSend(p, maxRate, fastDownload, now, out.size) else p
    else if out.unsent.Some? then p.(nextSnapshotTime := now + RateMsecOf(p.rate, maxRate, out.unsent.value))
    else AfterSend(p, maxRate, fastDownload, now, out.size)
  }

  /** One server frame, for one client. */
  function Frame(p: Pace, maxRate: int, fastDownload: bool, fps: int, now: int, out: Outgoing): Pace
    requires MIN_RATE <= p.rate
  {
    if Due(p, now) then Turn(p, maxRate, fastDownload, fps, now, out) else p
  }

  class Server {
    var maxRate: int
    var time: int
    var fastDownload: bool
    var fps: int
    const clients: array<Pace>

    constructor (clients: array<Pace>)
      ensures this.clients == clients
    {
      this.clients := clients;
      maxRate, time, fastDownload, fps := 0, 0, false, 20;
    }

    /** `SV_RateMsec`. A positive limit below the minimum is raised on the cvar itself. */
    method RateMsec(client: Pace, messageSize: int) returns (rateMsec: int)
      requires MIN_RATE <= client.rate
      modifies this`maxRate
      ensures rateMsec == RateMsecOf(client.rate, old(maxRate), messageSize)
      ensures maxRate == (if old(maxRate) == 0 then 0 else Max(old(maxRate), MIN_RATE))
    {
      var size := if messageSize > MAX_PACED_SIZE then MAX_PACED_SIZE else messageSize;
      var rate := client.rate;
      if maxRate != 0 {
        if maxRate < MIN_RATE {
          maxRate := MIN_RATE;
        }
        if maxRate < rate {
          rate := maxRate;
        }
      }
      rateMsec := TruncDiv((size + HEADER_RATE_BYTES) * 1000, rate);
    }

    /** `SV_UserinfoChanged`, given the integers that the "rate" and "snaps" settings parse to. */
    method UserinfoChanged(i: nat, rateSetting: Option<int>, snapsSetting: Option<int>)
      requires i < clients.Length
      modifies clients
      ensures clients[..] == old(clients[..])[i := clients[i]]
      ensures clients[i] == old(clients[i]).(rate := clients[i].rate, snapshotMsec := clients[i].snapshotMsec)
      ensures MIN_RATE <= clients[i].rate <= MAX_RATE && 33 <= clients[i].snapshotMsec <= 1000
      ensures rateSetting.None? ==> clients[i].rate == DEFAULT_RATE
      ensures rateSetting.Some? ==> clients[i].rate == Max(MIN_RATE, Min(rateSetting.value, MAX_RATE))
      ensures snapsSetting.None? ==> clients[i].snapshotMsec == 50
      ensures snapsSetting.Some? ==>
                var snaps := Max(1, Min(snapsSetting.value, 30));
                snaps * clients[i].snapshotMsec <= 1000 < snaps * (clients[i].snapshotMsec + 1)
    {
      if rateSetting.Some? {
        var rate := rateSetting.value;
        if rate < MIN_RATE {
          rate := MIN_RATE;
        } else if rate > MAX_RATE {
          rate := MAX_RATE;
        }
        clients[i] := clients[i].(rate := rate);
      } else {
        clients[i] := clients[i].(rate := DEFAULT_RATE);
      }
      if snapsSetting.Some? {
        var snaps := snapsSetting.value;
        if snaps < 1 {
          snaps := 1;
        } else if snaps > 30 {
          snaps := 30;
        }
        clients[i] := clients[i].(snapshotMsec := 1000 / snaps);
      } else {
        clients[i] := clients[i].(snapshotMsec := 50);
      }
    }

    /** The bookkeeping half of `custom_SV_SendMessageToClient`. */
    method SendMessageToClient(i: nat, compressedSize: int)
      requires i < clients.Length && MIN_RATE <= clients[i].rate
      modifies this`maxRate, clients
      ensures clients[..] ==
              old(clients[..])[i := AfterSend(old(clients[i]), old(maxRate), fastDownload, time, compressedSize)]
      ensures old(clients[i]).local || (fastDownload && old(clients[i]).download) ==> maxRate == old(maxRate)
      ensures maxRate == old(maxRate) || (maxRate == MIN_RATE && old(maxRate) < MIN_RATE && old(maxRate) != 0)
    {
      var client := clients[i];
      if client.local || (fastDownload && client.download) {
        clients[i] := client.(nextSnapshotTime := time - 1);
        return;
      }
      var rateMsec := RateMsec(client, compressedSize);
      if rateMsec < client.snapshotMsec {
        rateMsec := client.snapshotMsec;
        client := client.(rateDelayed := false);
      } else {
        client := client.(rateDelayed := true);
      }
      client := client.(nextSnapshotTime := time + rateMsec);
      if client.state != ACTIVE {
        if !client.hasDownloadName && client.nextSnapshotTime < time + CONNECTING_MSEC {
          client := client.(nextSnapshotTime := time + CONNECTING_MSEC);
        }
      }
      clients[i] := client;
    }

    /** A turn of the loop: the snapshots of a fast download, the next fragment, or one snapshot. */
    method TakeTurn(i: nat, out: Outgoing) returns (messages: int)
      requires i < clients.Length && MIN_RATE <= clients[i].rate
      modifies this`maxRate, clients
      ensures messages == if fastDownload && old(clients[i]).download then Max(Snapshots(fps), 0) else 1
      ensures clients[..] == old(clients[..])[i := Turn(old(clients[i]), old(maxRate), fastDownload, fps, time, out)]
      ensures maxRate == old(maxRate) || (maxRate == MIN_RATE && old(maxRate) < MIN_RATE && old(maxRate) != 0)
    {
      if fastDownload && clients[i].download {
        var j := 0;
        while j < 1 + TruncDiv(fps, 20) * DOWNLOAD_WINDOW
          invariant 0 <= j && (j > 0 ==> j <= Snapshots(fps))
          invariant maxRate == old(maxRate)
          invariant clients[..]
                    == old(clients[..])[i := if j == 0 then old(clients[i])
                                             else AfterSend(old(clients[i]), maxRate, fastDownload, time, out.size)]
        {
          SendMessageToClient(i, out.size);
          j := j + 1;
        }
        messages := j;
      } else if out.unsent.Some? {
        var rateMsec := RateMsec(clients[i], out.unsent.value);
        clients[i] := clients[i].(nextSnapshotTime := time + rateMsec);
        messages := 1;
      } else {
        SendMessageToClient(i, out.size);
        messages := 1;
      }
    }

    /** The client loop of `custom_SV_SendClientMessages`. */
    method SendClientMessages(outs: seq<Outgoing>)
      requires |outs| == clients.Length
      requires forall i | 0 <= i < clients.Length :: MIN_RATE <= clients[i].rate
      modifies this`maxRate, clients
      ensures forall i | 0 <= i < clients.Length ::
                clients[i] == Frame(old(clients[i]), old(maxRate), fastDownload, fps, time, outs[i])
    {
      for i := 0 to clients.Length
        invariant maxRate == old(maxRate) || (maxRate == MIN_RATE && old(maxRate) < MIN_RATE && old(maxRate) != 0)
        invariant forall j | i <= j < clients.Length :: clients[j] == old(clients[j])
        invariant forall j | 0 <= j < i ::
                    clients[j] == Frame(old(clients[j]), old(maxRate), fastDownload, fps, time, outs[j])
      {
        if clients[i].state == FREE {
          continue;
        }
        if time < clients[i].nextSnapshotTime {
          continue;
        }
        ghost var raised := maxRate;
        SameRate(clients[i], old(maxRate), raised, fastDownload, fps, time, outs[i]);
        var messages := TakeTurn(i, outs[i]);
      }
    }
  }

  /** Raising the server limit to the minimum does not change what it amounts to. */
  lemma {:induction false} SameRate(
      p: Pace, maxRate: int, raised: int, fastDownload: bool, fps: int, now: int, out: Outgoing)
    requires MIN_RATE <= p.rate
    requires raised == maxRate || (raised == MIN_RATE && maxRate < MIN_RATE && maxRate != 0)
    ensures Turn(p, maxRate, fastDownload, fps, now, out) == Turn(p, raised, fastDownload, fps, now, out)
  {
    assert EffectiveRate(p.rate, maxRate) == EffectiveRate(p.rate, raised);
  }

  // ----- the bandwidth bound ----------------------------------------------------------------

  /** A server frame: the time, what would be sent, and what the rest of the server has made of the
      client by then. */
  datatype Tick = Tick(now: int, out: Outgoing, state: ClientState, snapshotMsec: int, hasDownloadName: bool)

  /** One frame of a run. Between frames anything about the client may change but its rate and its
      address. */
  function Met(p: Pace, tick: Tick): Pace {
    p.(state := tick.state, snapshotMsec := tick.snapshotMsec, hasDownloadName := tick.hasDownloadName)
  }

  /** The settings of a run. */
  datatype Settings = Settings(maxRate: int, fastDownload: bool, fps: int)

  function PaceAfter(p: Pace, cfg: Settings, ticks: seq<Tick>): (r: Pace)
    requires MIN_RATE <= p.rate
    ensures r.rate == p.rate && r.local == p.local && r.download == p.download
  {
    if ticks == [] then p
    else
      var n := |ticks| - 1;
      Frame(Met(PaceAfter(p, cfg, ticks[..n]), ticks[n]), cfg.maxRate, cfg.fastDownload, cfg.fps,
            ticks[n].now, ticks[n].out)
  }

  /** The frames in which something is sent, oldest first. */
  function Sends(p: Pace, cfg: Settings, ticks: seq<Tick>): seq<Tick>
    requires MIN_RATE <= p.rate
  {
    if ticks == [] then []
    else
      var n := |ticks| - 1;
      Sends(p, cfg, ticks[..n])
      + if Due(Met(PaceAfter(p, cfg, ticks[..n]), ticks[n]), ticks[n].now) then [ticks[n]] else []
  }

  function TotalCost(sends: seq<Tick>): int {
    if sends == [] then 0 else TotalCost(sends[..|sends| - 1]) + Cost(Charged(sends[|sends| - 1].out))
  }

  /** A message never costs more than the wait that follows it allows. */
  lemma {:induction false} CostFitsWait(rate: int, maxRate: int, size: nat, wait: int)
    requires MIN_RATE <= rate && RateMsecOf(rate, maxRate, size) <= wait
    ensures MIN_RATE <= EffectiveRate(rate, maxRate) <= rate
    ensures Cost(size) <= EffectiveRate(rate, maxRate) * (wait + 1)
  {
    var e := EffectiveRate(rate, maxRate);
    var m := RateMsecOf(rate, maxRate, size);
    assert Cost(size) == m * e + Cost(size) % e;
    MulStep(m, e);
    MulMonotone(m + 1, wait + 1, e);
  }

  /** All messages but the last fit in rate `e`, but for one millisecond each. */
  ghost predicate WithinRate(e: int, sends: seq<Tick>)
    requires sends != []
  {
    var n := |sends|;
    TotalCost(sends[..n - 1]) <= e * ((sends[n - 1].now - sends[0].now) + (n - 1))
  }

  lemma {:induction false} First(e: int, t: Tick)
    ensures WithinRate(e, [t])
  {
    assert TotalCost([t][..0]) == 0;
    assert e * 0 == 0;
  }

  lemma {:induction false} Extend(e: int, sends: seq<Tick>, next: Tick)
    requires sends != [] && WithinRate(e, sends)
    requires Cost(Charged(sends[|sends| - 1].out)) <= e * ((next.now - sends[|sends| - 1].now) + 1)
    ensures WithinRate(e, sends + [next])
  {
    var n := |sends|;
    var longer := sends + [next];
    assert longer[..n] == sends;
    var span, wait := (sends[n - 1].now - sends[0].now) + (n - 1), (next.now - sends[n - 1].now) + 1;
    AddProducts(e, span, wait);
    assert span + wait == (longer[n].now - longer[0].now) + n;
  }

  lemma AddProducts(e: int, a: int, b: int)
    ensures e * a + e * b == e * (a + b)
  {
  }

  /** The last message has been paid for before the next is due. */
  ghost predicate Paced(p: Pace, maxRate: int, sends: seq<Tick>)
    requires MIN_RATE <= p.rate
  {
    sends != [] ==>
      && sends[|sends| - 1].now + RateMsecOf(p.rate, maxRate, Charged(sends[|sends| - 1].out)) <= p.nextSnapshotTime
      && WithinRate(EffectiveRate(p.rate, maxRate), sends)
  }

  /** Nothing in this client's turn escapes the pacing. */
  predicate Remote(p: Pace, cfg: Settings) {
    !p.local && !(cfg.fastDownload && p.download)
  }

  ghost predicate Sizes(ticks: seq<Tick>) {
    forall i | 0 <= i < |ticks| :: Charged(ticks[i].out) >= 0
  }

  lemma {:induction false} PacedStep(p: Pace, cfg: Settings, sends: seq<Tick>, tick: Tick)
    requires MIN_RATE <= p.rate && Remote(p, cfg) && Sizes(sends)
    requires Paced(p, cfg.maxRate, sends) && Due(p, tick.now)
    ensures Paced(Turn(p, cfg.maxRate, cfg.fastDownload, cfg.fps, tick.now, tick.out), cfg.maxRate, sends + [tick])
  {
    if sends == [] {
      assert sends + [tick] == [tick];
      First(EffectiveRate(p.rate, cfg.maxRate), tick);
    } else {
      var last := sends[|sends| - 1];
      CostFitsWait(p.rate, cfg.maxRate, Charged(last.out), tick.now - last.now);
      Extend(EffectiveRate(p.rate, cfg.maxRate), sends, tick);
    }
  }

  lemma {:induction false} PacingInvariant(p: Pace, cfg: Settings, ticks: seq<Tick>)
    requires MIN_RATE <= p.rate && Remote(p, cfg) && Sizes(ticks)
    ensures Paced(PaceAfter(p, cfg, ticks), cfg.maxRate, Sends(p, cfg, ticks)) && Sizes(Sends(p, cfg, ticks))
  {
    if ticks == [] {
    } else {
      var k := |ticks| - 1;
      PacingInvariant(p, cfg, ticks[..k]);
      var before := Met(PaceAfter(p, cfg, ticks[..k]), ticks[k]);
      var sends := Sends(p, cfg, ticks[..k]);
      if Due(before, ticks[k].now) {
        PacedStep(before, cfg, sends, ticks[k]);
      } else {
        assert sends + [] == sends;
      }
    }
  }

  /** The bandwidth bound: over any run of server frames, however the client's state and snapshot
      interval change along the way, the messages and fragments charged to a remote client before
      the last one fit in the effective rate over the time between the first and the last, but
      for one millisecond of rounding each. */
  lemma {:induction false} BandwidthBound(p: Pace, cfg: Settings, ticks: seq<Tick>)
    requires MIN_RATE <= p.rate <= MAX_RATE && Remote(p, cfg) && Sizes(ticks)
    requires Sends(p, cfg, ticks) != []
    ensures MIN_RATE <= EffectiveRate(p.rate, cfg.maxRate) <= MAX_RATE
    ensures var sends := Sends(p, cfg, ticks);
            var n := |sends|;
            TotalCost(sends[..n - 1])
            <= EffectiveRate(p.rate, cfg.maxRate) * ((sends[n - 1].now - sends[0].now) + (n - 1))
  {
    PacingInvariant(p, cfg, ticks);
    CostFitsWait(p.rate, cfg.maxRate, 0, RateMsecOf(p.rate, cfg.maxRate, 0));
  }

  // ----- when exactly a client is due -----------------------------------------------------------

  /** The wait is the cost over the effective rate, rounded down. At most 1500 bytes of a message are
      charged, and 48 for its header. */
  lemma {:induction false} WaitIsExact(rate: int, maxRate: int, size: nat)
    requires MIN_RATE <= rate
    ensures var w, e := RateMsecOf(rate, maxRate, size), EffectiveRate(rate, maxRate);
            var bytes := if size < 1500 then size + 48 else 1548;
            0 <= w && w * e <= bytes * 1000 < (w + 1) * e
  {
    var w, e := RateMsecOf(rate, maxRate, size), EffectiveRate(rate, maxRate);
    assert Cost(size) == w * e + Cost(size) % e;
    MulStep(w, e);
  }

  /** The effective rate is the client's own, the server's if that is lower, but never below 1000. */
  lemma {:induction false} EffectiveRateIs(rate: int, maxRate: int)
    requires MIN_RATE <= rate
    ensures maxRate == 0 || maxRate >= rate ==> EffectiveRate(rate, maxRate) == rate
    ensures 1000 <= maxRate < rate ==> EffectiveRate(rate, maxRate) == maxRate
    ensures maxRate < 1000 && maxRate != 0 ==> EffectiveRate(rate, maxRate) == 1000
  {
  }

  lemma {:induction false} WaitIff(rate: int, maxRate: int, size: nat, wait: int)
    requires MIN_RATE <= rate
    ensures RateMsecOf(rate, maxRate, size) <= wait <==> Cost(size) < EffectiveRate(rate, maxRate) * (wait + 1)
  {
    var w, e := RateMsecOf(rate, maxRate, size), EffectiveRate(rate, maxRate);
    WaitIsExact(rate, maxRate, size);
    if w <= wait {
      MulMonotone(w + 1, wait + 1, e);
    } else {
      MulMonotone(wait + 1, w, e);
    }
  }

  /** Enough time has passed since a send: its bytes are paid for, and after a whole message also the
      snapshot interval, and a second for a client that is neither active nor downloading. */
  ghost predicate Waited(rate: int, maxRate: int, sent: Tick, now: int) {
    var wait := now - sent.now;
    && Cost(Charged(sent.out)) < EffectiveRate(rate, maxRate) * (wait + 1)
    && (sent.out.unsent.None? ==> wait >= sent.snapshotMsec)
    && (sent.out.unsent.None? && sent.state != ACTIVE && !sent.hasDownloadName ==> wait >= 1000)
  }

  lemma {:induction false} TurnDue(p: Pace, cfg: Settings, tick: Tick, t: int)
    requires MIN_RATE <= p.rate && Remote(p, cfg) && Charged(tick.out) >= 0
    ensures Turn(Met(p, tick), cfg.maxRate, cfg.fastDownload, cfg.fps, tick.now, tick.out).nextSnapshotTime <= t
            <==> Waited(p.rate, cfg.maxRate, tick, t)
  {
    WaitIff(p.rate, cfg.maxRate, Charged(tick.out), t - tick.now);
    hide RateMsecOf, EffectiveRate, Cost;
  }

  lemma {:induction false} DueIff(p: Pace, cfg: Settings, ticks: seq<Tick>, t: int)
    requires MIN_RATE <= p.rate && Remote(p, cfg) && Sizes(ticks)
    ensures var sends := Sends(p, cfg, ticks);
            PaceAfter(p, cfg, ticks).nextSnapshotTime <= t
            <==> if sends == [] then p.nextSnapshotTime <= t
                 else Waited(p.rate, cfg.maxRate, sends[|sends| - 1], t)
  {
    if ticks == [] {
    } else {
      var n := |ticks| - 1;
      DueIff(p, cfg, ticks[..n], t);
      TurnDue(PaceAfter(p, cfg, ticks[..n]), cfg, ticks[n], t);
      hide Turn, Waited;
    }
  }

  /** In every run a frame sends something to a remote client exactly if the client is in use and has
      waited long enough since the last send: it is never sent anything early, and no frame after
      its time passes it by. */
  lemma {:induction false} SendsIff(p: Pace, cfg: Settings, ticks: seq<Tick>)
    requires MIN_RATE <= p.rate && Remote(p, cfg) && Sizes(ticks) && ticks != []
    ensures var n := |ticks| - 1;
            var sends := Sends(p, cfg, ticks[..n]);
            var waited := if sends == [] then p.nextSnapshotTime <= ticks[n].now
                          else Waited(p.rate, cfg.maxRate, sends[|sends| - 1], ticks[n].now);
            Sends(p, cfg, ticks) == sends + if ticks[n].state != FREE && waited then [ticks[n]] else []
  {
    DueIff(p, cfg, ticks[..|ticks| - 1], ticks[|ticks| - 1].now);
    hide Waited, PaceAfter;
  }

  /** So consecutive messages are at least the snapshot interval apart, and a second while the client
      is neither active nor downloading. */
  lemma {:induction false} SendsAreSpaced(p: Pace, cfg: Settings, ticks: seq<Tick>, i: nat)
    requires MIN_RATE <= p.rate && Remote(p, cfg) && Sizes(ticks) && i + 1 < |Sends(p, cfg, ticks)|
    ensures var a, b := Sends(p, cfg, ticks)[i], Sends(p, cfg, ticks)[i + 1];
            && Waited(p.rate, cfg.maxRate, a, b.now)
            && (a.out.unsent.None? ==> b.now >= a.now + a.snapshotMsec)
            && (a.out.unsent.None? && a.state != ACTIVE && !a.hasDownloadName ==> b.now >= a.now + 1000)
  {
    var n := |ticks| - 1;
    var before := Sends(p, cfg, ticks[..n]);
    SendsIff(p, cfg, ticks);
    if i + 1 < |before| {
      SendsAreSpaced(p, cfg, ticks[..n], i);
    }
  }

  /** A message is flagged as delayed exactly if it costs no less than the interval provides. */
  lemma {:induction false} RateDelayedIff(p: Pace, cfg: Settings, now: int, size: nat)
    requires MIN_RATE <= p.rate && Remote(p, cfg)
    ensures AfterSend(p, cfg.maxRate, cfg.fastDownload, now, size).rateDelayed
            <==> Cost(size) >= EffectiveRate(p.rate, cfg.maxRate) * p.snapshotMsec
  {
    WaitIff(p.rate, cfg.maxRate, size, p.snapshotMsec - 1);
  }

  /** A local client in use, or one that downloads fast, is sent something in every frame, at any frame
      rate; at 20 frames a second a fast download sends one snapshot more than the download window
      holds, and one window more for every further 20. */
  lemma {:induction false} LocalIsAlwaysDue(p: Pace, cfg: Settings, now: int, later: int, out: Outgoing)
    requires MIN_RATE <= p.rate && cfg.fps >= 0 && now <= later + 1 && p.state != FREE
    requires (p.local && out.unsent.None?) || (cfg.fastDownload && p.download)
    ensures Due(Turn(p, cfg.maxRate, cfg.fastDownload, cfg.fps, now, out), later)
    ensures Snapshots(cfg.fps) >= 1
    ensures Snapshots(0) == 1 && Snapshots(20) == 9 && Snapshots(cfg.fps + 20) == Snapshots(cfg.fps) + 8
  {
  }
}
