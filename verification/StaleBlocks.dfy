/** What the go-back does when late acknowledgements arrive after it: a run in which an honest
    client and a well-behaved file lead the server to send a block under another block's number,
    and the acknowledgement that would break the window. */
module StaleBlocks {
  import opened CTypes
  import opened Downloads
  import opened DownloadProtocol
  import opened DownloadProgress

  /** Reads that return all that is asked for, up to the end of the file. */
  ghost predicate WholeReads(f: File) {
    forall pos: nat, n: nat | pos < |f.content| :: f.read(pos, n) == Min(n, |f.content| - pos)
  }

  function BlockOf(f: File, k: nat): Bytes {
    Slice(f.content, BLKSIZE * k, BLKSIZE)
  }

  /** Long enough for two full windows, and blocks 1 and 9 differ. */
  ghost predicate Suitable(f: File) {
    WholeReads(f) && |f.content| > 2 * WINDOW * BLKSIZE && BlockOf(f, 1) != BlockOf(f, 9)
  }

  /** A file of seventeen blocks, each filled with its own number. */
  function Striped(): (f: File)
    ensures Suitable(f)
  {
    var content := seq(17 * BLKSIZE, i requires 0 <= i < 17 * BLKSIZE => (i / BLKSIZE) as Byte);
    var f := File(content, (pos: nat, n: nat) => Min(n, 17 * BLKSIZE - pos));
    assert BlockOf(f, 1)[0] != BlockOf(f, 9)[0];
    f
  }

  /** Every block read so far is a full one. */
  ghost predicate AllFull(f: File, s: Sender) {
    && s.Shaped() && s.size == |f.content| && !s.eof && s.count == s.pos == BLKSIZE * s.current
    && |s.blocks| == s.current && forall k | 0 <= k < s.current :: s.blocks[k] == BlockOf(f, k)
  }

  lemma {:induction false} FillsUp(f: File, s: Sender)
    requires Suitable(f) && AllFull(f, s) && s.client <= s.current <= s.client + WINDOW && s.client <= WINDOW
    ensures var r := Settle(f, s, BLKSIZE);
            && AllFull(f, r) && r.current == s.client + WINDOW
            && r.client == s.client && r.xmit == s.xmit && r.sendTime == s.sendTime
    decreases WINDOW - (s.current - s.client)
  {
    if s.current == s.client + WINDOW {
    } else {
      var r := ReadBlock(f, s, BLKSIZE);
      assert r.blocks[s.current] == BlockOf(f, s.current);
      FillsUp(f, r);
    }
  }

  // ----- the run ----------------------------------------------------------------------------

  /** The first window is in the ring, nothing but acknowledgements has been issued, the client has
      accepted `accepted` blocks, and the server has heard of `acked` of them. */
  ghost predicate Stage(f: File, st: State, xmit: int, accepted: nat, acked: nat) {
    && Inv(f, st) && st.status == Running && AllFull(f, st.sv)
    && st.sv.client == acked && st.sv.current == WINDOW && st.sv.xmit == xmit
    && st.cl.expected == accepted && !st.cl.done
    && |st.commands| == accepted && st.lastCommand == acked
    && forall i | 0 <= i < accepted :: st.commands[i].NextDownload?
  }

  ghost predicate WasSent(st: State, k: int) {
    exists m | m in st.sent :: m.num == k
  }

  ghost predicate SentUpTo(st: State, n: nat) {
    forall k | 0 <= k < n :: WasSent(st, k)
  }

  /** A frame sends block `xmit`, or the oldest one if all have been sent and the time is up. */
  lemma {:induction false} OneFrame(f: File, st: State, now: int)
    requires Suitable(f) && FileOk(f) && Inv(f, st) && st.status == Running && AllFull(f, st.sv)
    requires st.time <= now && st.sv.client <= WINDOW
    requires st.sv.xmit < st.sv.client + WINDOW || now - st.sv.sendTime > RETRANSMIT_MSEC
    ensures var st' := Step(f, st, Frame(false, now));
            var num := if st.sv.xmit == st.sv.client + WINDOW then st.sv.client else st.sv.xmit;
            && IsRun(f, st, [Frame(false, now)]) && Final(f, st, [Frame(false, now)]) == st'
            && Inv(f, st') && AllFull(f, st'.sv)
            && st'.sv.client == st.sv.client && st'.sv.current == st.sv.client + WINDOW && st'.sv.xmit == num + 1
            && st'.status == Running && st'.cl == st.cl
            && st'.commands == st.commands && st'.lastCommand == st.lastCommand
            && st.sent <= st'.sent
            && exists m | m in st'.sent :: m.num == num && m.data == st'.sv.blocks[NewestInSlot(st'.sv.current, num)]
  {
    var e := Frame(false, now);
    StepInv(f, st, e);
    SingleStep(f, st, e);
    FillsUp(f, st.sv);
    WriteOk(f, st.sv, BLKSIZE, now);
    var w := Write(f, st.sv, BLKSIZE, now);
    assert w.outcome.message in Step(f, st, e).sent;
    hide Inv, FileOk, Suitable, SenderOk, Settle;
  }

  lemma SuitableIsOk(f: File)
    requires Suitable(f)
    ensures FileOk(f)
  {
  }

  /** The first `n` frames send the first `n` blocks. */
  lemma {:induction false} SendBlocks(f: File, st: State, n: nat) returns (events: seq<Event>)
    requires Suitable(f) && FileOk(f) && Initial(f, st) && 1 <= n <= WINDOW
    ensures IsRun(f, st, events)
    ensures Stage(f, Final(f, st, events), n, 0, 0) && SentUpTo(Final(f, st, events), n)
  {
    InitialInv(f, st);
    if n == 1 {
      events := [Frame(false, st.time)];
      OneFrame(f, st, st.time);
    } else {
      var before := SendBlocks(f, st, n - 1);
      var mid := Final(f, st, before);
      OneFrame(f, mid, mid.time);
      AppendRun(f, st, before, [Frame(false, mid.time)]);
      events := before + [Frame(false, mid.time)];
      forall k | 0 <= k < n - 1
        ensures WasSent(Final(f, st, events), k)
      {
        assert WasSent(mid, k);
      }
    }
  }

  lemma {:induction false} OneDelivery(f: File, st: State, n: nat, m: Message)
    requires Suitable(f) && FileOk(f) && Stage(f, st, WINDOW, n, 0) && n < WINDOW && m in st.sent && m.num == n
    ensures var st' := Step(f, st, Deliver(m));
            && IsRun(f, st, [Deliver(m)]) && Final(f, st, [Deliver(m)]) == st'
            && Stage(f, st', WINDOW, n + 1, 0) && st'.sent == st.sent
  {
    hide SenderOk, ChannelOk, ReceiverOk, Settle;
    assert MessageOk(st.sv, m);
    Accepts(f, st.sv, st.cl, n, m);
    DeliverInv(f, st, m);
    SingleStep(f, st, Deliver(m));
    hide Suitable, FileOk, MessageOk, AllFull;
  }

  lemma {:induction false} Accepts(f: File, sv: Sender, cl: Receiver, n: nat, m: Message)
    requires Suitable(f) && AllFull(f, sv) && sv.current == WINDOW && sv.client == 0
    requires cl.expected == n < WINDOW && !cl.done && MessageOk(sv, m) && m.num == n
    ensures Receive(cl, m).expected == n + 1 && !Receive(cl, m).done
  {
    assert sv.blocks[n] == BlockOf(f, n) != [];
  }

  /** The client accepts and acknowledges them. */
  lemma {:induction false} AcceptBlocks(f: File, st: State, n: nat) returns (events: seq<Event>)
    requires Suitable(f) && FileOk(f) && Stage(f, st, WINDOW, 0, 0) && SentUpTo(st, WINDOW) && n <= WINDOW
    ensures IsRun(f, st, events)
    ensures Stage(f, Final(f, st, events), WINDOW, n, 0) && Final(f, st, events).sent == st.sent
  {
    if n == 0 {
      events := [];
    } else {
      var before := AcceptBlocks(f, st, n - 1);
      var mid := Final(f, st, before);
      assert WasSent(st, n - 1);
      var m :| m in st.sent && m.num == n - 1;
      OneDelivery(f, mid, n - 1, m);
      AppendRun(f, st, before, [Deliver(m)]);
      hide Stage, Suitable, FileOk;
      events := before + [Deliver(m)];
    }
  }

  lemma {:induction false} OneAcknowledgement(f: File, st: State, xmit: int, n: nat)
    requires Suitable(f) && FileOk(f) && Stage(f, st, xmit, WINDOW, n) && n < WINDOW
    ensures var e := CommandPacket(n + 1);
            && IsRun(f, st, [e]) && Final(f, st, [e]) == Step(f, st, e)
            && Stage(f, Step(f, st, e), xmit, WINDOW, n + 1)
  {
    assert Holds(st.sv, n);
    assert st.sv.blocks[n] == BlockOf(f, n) != [];
    CommandInv(f, st, n + 1);
    SingleStep(f, st, CommandPacket(n + 1));
    hide Suitable, FileOk, ChannelOk, ReceiverOk, Settle;
  }

  /** The acknowledgements reach the server. */
  lemma {:induction false} Acknowledgements(f: File, st: State, xmit: int, n: nat) returns (events: seq<Event>)
    requires Suitable(f) && FileOk(f) && Stage(f, st, xmit, WINDOW, 0) && n <= WINDOW
    ensures IsRun(f, st, events)
    ensures Stage(f, Final(f, st, events), xmit, WINDOW, n)
  {
    if n == 0 {
      events := [];
    } else {
      var before := Acknowledgements(f, st, xmit, n - 1);
      var mid := Final(f, st, before);
      OneAcknowledgement(f, mid, xmit, n - 1);
      AppendRun(f, st, before, [CommandPacket(n)]);
      events := before + [CommandPacket(n)];
      hide Stage, Suitable, FileOk;
    }
  }

  /** From any start: the window is sent and accepted, and the timer sends block 0 again before
      the acknowledgements arrive. */
  lemma {:induction false} GoBackTooLate(f: File, st: State) returns (events: seq<Event>)
    requires Suitable(f) && FileOk(f) && Initial(f, st)
    ensures IsRun(f, st, events) && Stage(f, Final(f, st, events), 1, WINDOW, WINDOW)
  {
    var sends := SendBlocks(f, st, WINDOW);
    var sent := Final(f, st, sends);
    var deliveries := AcceptBlocks(f, sent, WINDOW);
    var accepted := Final(f, sent, deliveries);
    var again := Frame(false, accepted.time + RETRANSMIT_MSEC + 1);
    OneFrame(f, accepted, accepted.time + RETRANSMIT_MSEC + 1);
    var late := Step(f, accepted, again);
    var acks := Acknowledgements(f, late, 1, WINDOW);
    AppendRun(f, st, sends, deliveries);
    AppendRun(f, st, sends + deliveries, [again]);
    AppendRun(f, st, sends + deliveries + [again], acks);
    events := sends + deliveries + [again] + acks;
  }

  // ----- the two results --------------------------------------------------------------------

  /** The next frame sends block 9 as number 1. The client, which waits for block 8, ignores it. */
  lemma {:induction false} MislabelledBlockIsSent(f: File, st: State) returns (events: seq<Event>, m: Message)
    requires Suitable(f) && Initial(f, st)
    ensures IsRun(f, st, events)
    ensures var end := Final(f, st, events);
            && m in end.sent && m.num == 1 && m.num < |end.sv.blocks|
            && m.data == BlockOf(f, 9) && m.data != BlockOf(f, 1) == end.sv.blocks[1]
            && Receive(end.cl, m) == end.cl
  {
    SuitableIsOk(f);
    var before := GoBackTooLate(f, st);
    var late := Final(f, st, before);
    OneFrame(f, late, late.time);
    AppendRun(f, st, before, [Frame(false, late.time)]);
    events := before + [Frame(false, late.time)];
    var end := Final(f, st, events);
    m :| m in end.sent && m.num == 1 && m.data == end.sv.blocks[NewestInSlot(end.sv.current, 1)];
    assert NewestInSlot(16, 1) == 9;
  }

  /** One acknowledgement more, before that frame, would push the window past its end. */
  lemma {:induction false} OvertakingBreaksTheWindow(f: File, st: State) returns (events: seq<Event>)
    requires Suitable(f) && Initial(f, st)
    ensures IsRun(f, st, events)
    ensures var end := Final(f, st, events);
            && SenderOk(f, end.sv)
            && var a := Acknowledge(end.sv, end.cl.expected, end.time);
              a.verdict == Advanced && a.sender.client > a.sender.current && !SenderOk(f, a.sender)
  {
    SuitableIsOk(f);
    events := GoBackTooLate(f, st);
    var end := Final(f, st, events);
    assert Holds(end.sv, 0);
    assert end.sv.blocks[0] == BlockOf(f, 0);
  }
}
