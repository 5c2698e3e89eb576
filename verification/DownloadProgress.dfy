/** Progress of a file transfer: the retransmission timer, and the absence of dead ends. */
module DownloadProgress {
  import opened CTypes
  import opened Downloads
  import opened DownloadProtocol

  // ----- the go-back timer ------------------------------------------------------------------

  datatype FrameTime = FrameTime(fast: bool, now: int)

  /** The block numbers that server frames put on the wire while nothing is acknowledged. */
  function SentBy(f: File, s: Sender, frames: seq<FrameTime>): seq<int>
    requires s.Shaped()
    decreases |frames|
  {
    if frames == [] then []
    else
      var w := Write(f, s, BlockSize(frames[0].fast), frames[0].now);
      (if w.outcome.Sent? then [w.outcome.message.num] else [])
      + SentBy(f, w.sender, frames[1..])
  }

  /** How many more blocks a settled sender sends before it sends the oldest one. */
  function SendsUntilOldest(s: Sender): int {
    if s.xmit <= s.client then s.client - s.xmit + 1 else s.current - s.xmit + 1
  }

  lemma {:induction false} CountDown(f: File, s: Sender, frames: seq<FrameTime>)
    requires FileOk(f) && SenderOk(f, s) && Settled(s) && s.client < s.current
    requires |SentBy(f, s, frames)| >= SendsUntilOldest(s)
    ensures s.client in SentBy(f, s, frames)
    decreases |frames|
  {
    if frames == [] {
    } else {
      var blksize, now := BlockSize(frames[0].fast), frames[0].now;
      var w := Write(f, s, blksize, now);
      WriteOk(f, s, blksize, now);
      SettledStays(f, s, blksize);
      if w.outcome.Sent? && w.outcome.message.num == s.client {
        assert SentBy(f, s, frames)[0] == s.client;
      } else {
        CountDown(f, w.sender, frames[1..]);
      }
    }
  }

  /** The go-back bound. While nothing is acknowledged, nine transmissions always include the
      oldest unacknowledged block. A frame fails to transmit only when everything has been sent
      and the last transmission is no more than the retransmission time ago. */
  lemma {:induction false} OldestResent(f: File, s: Sender, frames: seq<FrameTime>)
    requires FileOk(f) && SenderOk(f, s) && s.client <= s.xmit + WINDOW
    requires |SentBy(f, s, frames)| > WINDOW
    ensures s.client in SentBy(f, s, frames)
  {
    var blksize, now := BlockSize(frames[0].fast), frames[0].now;
    SettleOk(f, s, blksize);
    var m := Settle(f, s, blksize);
    SettledStays(f, m, blksize);
    assert SentBy(f, m, frames) == SentBy(f, s, frames);
    CountDown(f, m, frames);
  }

  /** Consecutive frames are further apart than the retransmission time. */
  ghost predicate Spaced(last: int, frames: seq<FrameTime>) {
    && (frames != [] ==> frames[0].now > last + RETRANSMIT_MSEC)
    && (forall i | 0 <= i < |frames| - 1 :: frames[i + 1].now > frames[i].now + RETRANSMIT_MSEC)
  }

  /** Frames that far apart always transmit. */
  lemma {:induction false} SpacedFramesSend(f: File, s: Sender, frames: seq<FrameTime>)
    requires FileOk(f) && SenderOk(f, s) && Spaced(s.sendTime, frames)
    ensures |SentBy(f, s, frames)| == |frames|
    decreases |frames|
  {
    if frames == [] {
    } else {
      WriteOk(f, s, BlockSize(frames[0].fast), frames[0].now);
      SpacedFramesSend(f, Write(f, s, BlockSize(frames[0].fast), frames[0].now).sender, frames[1..]);
    }
  }

  /** In every state that a transfer can reach, nine transmissions, or nine frames more than the
      retransmission time apart, repeat the oldest unacknowledged block. */
  lemma {:induction false} AlwaysResent(f: File, st: State, events: seq<Event>, frames: seq<FrameTime>)
    requires FileOk(f) && Initial(f, st) && IsRun(f, st, events)
    ensures var s := Final(f, st, events).sv;
            s.Shaped()
            && (|SentBy(f, s, frames)| > WINDOW || (|frames| > WINDOW && Spaced(s.sendTime, frames))
                ==> s.client in SentBy(f, s, frames))
  {
    InitialInv(f, st);
    RunInv(f, st, events);
    var s := Final(f, st, events).sv;
    if Spaced(s.sendTime, frames) {
      SpacedFramesSend(f, s, frames);
    }
    if |SentBy(f, s, frames)| > WINDOW {
      OldestResent(f, s, frames);
    }
  }

  // ----- what restarts the timer ------------------------------------------------------------

  /** When everything read has been sent, an accepted acknowledgement buys one retransmission time:
      exactly the frames within it wait, and any later one sends the oldest block again. */
  lemma {:induction false} AcknowledgementRestartsTimer(f: File, s: Sender, block: int, acked: int, frame: FrameTime)
    requires FileOk(f) && SenderOk(f, s) && Acknowledge(s, block, acked).verdict == Advanced && !Overtakes(s, block)
    requires var a := Acknowledge(s, block, acked).sender; Settled(a) && a.xmit == a.current
    ensures var a := Acknowledge(s, block, acked).sender;
            var w := Write(f, a, BlockSize(frame.fast), frame.now);
            if frame.now <= acked + 1000 then w == Written(a, Waiting)
            else w.outcome.Sent? && w.outcome.message.num == s.client + 1
  {
    var a := Acknowledge(s, block, acked).sender;
    AcknowledgeOk(f, s, block, acked);
    WriteOk(f, a, BlockSize(frame.fast), frame.now);
    SettledStays(f, a, BlockSize(frame.fast));
  }

  /** The latest transmission and the latest accepted acknowledgement of a run. */
  datatype Times = Times(send: Option<int>, ack: Option<int>)

  function Note(f: File, st: State, e: Event, times: Times): Times
    requires Enabled(st, e)
  {
    match e
    case Frame(fast, now) =>
      if Write(f, st.sv, BlockSize(fast), now).outcome.Sent? then times.(send := Some(now)) else times
    case CommandPacket(n) =>
      if HandleCommand(st, n).sv.client > st.sv.client then times.(ack := Some(st.time)) else times
    case _ => times
  }

  ghost function TimesAfter(f: File, st: State, events: seq<Event>, times: Times): Times
    requires IsRun(f, st, events)
    decreases |events|
  {
    if events == [] then times
    else TimesAfter(f, Step(f, st, events[0]), events[1..], Note(f, st, events[0], times))
  }

  predicate LongAgo(t: Option<int>, now: int) {
    t.Some? ==> now - t.value > RETRANSMIT_MSEC
  }

  /** The timer is the later of the two; before the first transmission there is nothing to go back to. */
  ghost predicate TimerOk(st: State, times: Times) {
    && (times.send.Some? ==> times.send.value <= st.sv.sendTime)
    && (times.ack.Some? ==> times.ack.value <= st.sv.sendTime)
    && (if times.send.None? then st.sv.xmit == 0
        else times.send == Some(st.sv.sendTime) || times.ack == Some(st.sv.sendTime))
  }

  lemma {:induction false} NoteKeepsTimer(f: File, st: State, e: Event, times: Times)
    requires FileOk(f) && Inv(f, st) && Enabled(st, e) && TimerOk(st, times)
    ensures TimerOk(Step(f, st, e), Note(f, st, e, times))
  {
    match e
    case Frame(fast, now) => FrameKeepsTimer(f, st, fast, now, times);
    case CommandPacket(n) => CommandKeepsTimer(st, n, times);
    case Deliver(_) =>
    case Issue =>
  }

  lemma {:induction false} FrameKeepsTimer(f: File, st: State, fast: bool, now: int, times: Times)
    requires FileOk(f) && SenderOk(f, st.sv) && Enabled(st, Frame(fast, now)) && TimerOk(st, times)
    requires st.sv.sendTime <= st.time
    ensures TimerOk(Step(f, st, Frame(fast, now)), Note(f, st, Frame(fast, now), times))
  {
    WriteOk(f, st.sv, BlockSize(fast), now);
    hide FileOk, SenderOk, Write;
  }

  lemma {:induction false} CommandKeepsTimer(st: State, n: nat, times: Times)
    requires st.sv.Shaped() && 1 <= n <= |st.commands| && TimerOk(st, times) && st.sv.sendTime <= st.time
    ensures var st' := HandleCommand(st, n);
            TimerOk(st', if st'.sv.client > st.sv.client then times.(ack := Some(st.time)) else times)
  {
  }

  lemma {:induction false} RunKeepsTimer(f: File, st: State, events: seq<Event>, times: Times)
    requires FileOk(f) && Inv(f, st) && IsRun(f, st, events) && TimerOk(st, times)
    ensures TimerOk(Final(f, st, events), TimesAfter(f, st, events, times))
    decreases |events|
  {
    if events == [] {
    } else {
      StepInv(f, st, events[0]);
      NoteKeepsTimer(f, st, events[0], times);
      RunKeepsTimer(f, Step(f, st, events[0]), events[1..], Note(f, st, events[0], times));
    }
  }

  /** In every run, a frame that finds everything sent goes back exactly if both the latest
      transmission and the latest accepted acknowledgement are more than the retransmission time
      ago; a frame that finds something unsent sends it at once. */
  lemma {:induction false} GoesBackIff(f: File, st: State, events: seq<Event>, frame: FrameTime)
    requires FileOk(f) && Initial(f, st) && IsRun(f, st, events)
    ensures var s := Final(f, st, events).sv;
            var times := TimesAfter(f, st, events, Times(None, None));
            s.Shaped() &&
            var w := Write(f, s, BlockSize(frame.fast), frame.now);
            if s.xmit == w.sender.current
            then times.send.Some?
                 && (w.outcome == Waiting <==> !LongAgo(times.send, frame.now) || !LongAgo(times.ack, frame.now))
                 && (w.outcome != Waiting ==> w.outcome.Sent? && w.outcome.message.num == s.client)
            else w.outcome.Sent? && w.outcome.message.num == s.xmit
  {
    InitialInv(f, st);
    RunInv(f, st, events);
    RunKeepsTimer(f, st, events, Times(None, None));
    var s := Final(f, st, events).sv;
    WriteOk(f, s, BlockSize(frame.fast), frame.now);
    hide FileOk, SenderOk, Settle, Transmit;
  }

  // ----- no dead ends -----------------------------------------------------------------------

  lemma {:induction false} AppendRun(f: File, st: State, a: seq<Event>, b: seq<Event>)
    requires IsRun(f, st, a) && IsRun(f, Final(f, st, a), b)
    ensures IsRun(f, st, a + b) && Final(f, st, a + b) == Final(f, Final(f, st, a), b)
    decreases |a|
  {
    if a == [] {
      assert a + b == b;
    } else {
      AppendRun(f, Step(f, st, a[0]), a[1..], b);
      assert (a + b)[1..] == a[1..] + b;
    }
  }

  lemma {:induction false} SingleStep(f: File, st: State, e: Event)
    requires Enabled(st, e)
    ensures IsRun(f, st, [e]) && Final(f, st, [e]) == Step(f, st, e)
  {
    assert IsRun(f, Step(f, st, e), [e][1..]);
    assert Final(f, Step(f, st, e), [e][1..]) == Step(f, st, e);
  }

  /** Deliver the outstanding commands in sequence. */
  lemma {:induction false} Drain(f: File, st: State) returns (events: seq<Event>)
    requires FileOk(f) && Inv(f, st) && st.status == Running
    ensures IsRun(f, st, events)
    ensures var end := Final(f, st, events);
            && Inv(f, end) && end.cl == st.cl
            && (end.status == Finished || (end.status == Running && end.lastCommand == |end.commands|))
    decreases |st.commands| - st.lastCommand
  {
    events := [];
    if st.lastCommand == |st.commands| {
    } else {
      var e := CommandPacket(st.lastCommand + 1);
      StepInv(f, st, e);
      CommandInv(f, st, st.lastCommand + 1);
      SingleStep(f, st, e);
      var st' := Step(f, st, e);
      if st'.status == Running {
        var rest := Drain(f, st');
        AppendRun(f, st, [e], rest);
        events := [e] + rest;
      } else {
        events := [e];
      }
    }
  }

  /** Keep sending, slowly enough for the timer, until the oldest block is on the wire. */
  lemma {:induction false} Pump(f: File, st: State) returns (events: seq<Event>, m: Message)
    requires FileOk(f) && Inv(f, st) && st.status == Running
    ensures IsRun(f, st, events)
    ensures var end := Final(f, st, events);
            && Inv(f, end) && end.status == Running && end.cl == st.cl && end.sv.client == st.sv.client
            && end.commands == st.commands && end.lastCommand == st.lastCommand
            && m in end.sent && m.num == st.sv.client
    decreases SendsUntilOldest(Settle(f, st.sv, BlockSize(false)))
  {
    var now := st.time + RETRANSMIT_MSEC + 1;
    var e := Frame(false, now);
    StepInv(f, st, e);
    SingleStep(f, st, e);
    SettleOk(f, st.sv, BlockSize(false));
    WriteOk(f, st.sv, BlockSize(false), now);
    var w := Write(f, st.sv, BlockSize(false), now);
    events, m := [e], w.outcome.message;
    if m.num != st.sv.client {
      SettledStays(f, w.sender, BlockSize(false));
      var rest;
      rest, m := Pump(f, Step(f, st, e));
      AppendRun(f, st, [e], rest);
      events := [e] + rest;
    }
  }

  /** Get one more block across. */
  lemma {:induction false} Advance(f: File, st: State) returns (events: seq<Event>)
    requires FileOk(f) && Inv(f, st) && st.status == Running && st.lastCommand == |st.commands|
    ensures IsRun(f, st, events)
    ensures var end := Final(f, st, events);
            && Inv(f, end) && end.status == Running
            && (end.cl.done || |end.cl.accepted| > |st.cl.accepted|)
  {
    assert st.commands[..st.lastCommand] == st.commands;
    var frames, m := Pump(f, st);
    var sent := Final(f, st, frames);
    var e := Deliver(m);
    assert MessageOk(sent.sv, m);
    StepInv(f, sent, e);
    SingleStep(f, sent, e);
    AppendRun(f, st, frames, [e]);
    events := frames + [e];
  }

  /** A client that is done is told so once its commands arrive. */
  lemma {:induction false} DoneMeansFinished(f: File, st: State)
    requires FileOk(f) && Inv(f, st) && st.cl.done && st.lastCommand == |st.commands|
    ensures st.status != Running
  {
    assert st.commands[..st.lastCommand] == st.commands;
  }

  lemma {:induction false} CanFinish(f: File, st: State) returns (events: seq<Event>)
    requires FileOk(f) && Inv(f, st) && st.status == Running
    ensures IsRun(f, st, events) && Final(f, st, events).status == Finished
    decreases !st.cl.done, |f.content| - |st.cl.accepted|
  {
    var drain := Drain(f, st);
    var drained := Final(f, st, drain);
    events := drain;
    if drained.status == Running {
      if drained.cl.done {
        DoneMeansFinished(f, drained);
        assert false;
      }
      var advance := Advance(f, drained);
      var advanced := Final(f, drained, advance);
      InvMeansSafe(f, advanced);
      var rest := CanFinish(f, advanced);
      AppendRun(f, st, drain, advance);
      AppendRun(f, st, drain + advance, rest);
      events := drain + advance + rest;
    }
  }

  /** No dead ends: however badly the network has behaved so far, a transfer that has not been
      dropped can still run to completion, and then the client holds the whole file or
      everything up to the byte at which reading it failed. */
  lemma {:induction false} NoDeadEnd(f: File, st: State, events: seq<Event>)
    requires FileOk(f) && Initial(f, st) && IsRun(f, st, events) && Final(f, st, events).status == Running
    ensures exists more ::
              && IsRun(f, Final(f, st, events), more)
              && var end := Final(f, Final(f, st, events), more);
                && end.status == Finished && end.cl.done && end.cl.accepted <= f.content
                && (end.cl.accepted == f.content || FailsAt(f, |end.cl.accepted|))
  {
    InitialInv(f, st);
    RunInv(f, st, events);
    var here := Final(f, st, events);
    var more := CanFinish(f, here);
    RunInv(f, here, more);
    InvMeansSafe(f, Final(f, here, more));
  }
}
