/** A whole file transfer: the server of `Downloads`, a network that loses, duplicates and
    reorders block messages, an honest client, and the reliable-command channel that carries its
    acknowledgements back. */
module DownloadProtocol {
  import opened CTypes
  import opened Downloads

  /** The client accepts only the block it expects; the empty block ends the file. */
  datatype Receiver = Receiver(expected: nat, accepted: Bytes, done: bool)

  /** The reliable commands of the client, in the order it numbered them. */
  datatype Command = NextDownload(block: int) | Other

  datatype Status = Running | Finished | Dropped

  /** `sent` holds every message ever sent: delivering from it models duplication and reordering,
      never delivering models loss. Command packets are likewise any command ever issued. */
  datatype State = State(
    sv: Sender, status: Status, time: int,
    sent: set<Message>, commands: seq<Command>, lastCommand: nat,
    cl: Receiver)

  datatype Event =
    | Frame(fast: bool, now: int)
    | Deliver(message: Message)
    | Issue
    | CommandPacket(seqNum: nat)

  ghost predicate Initial(f: File, st: State) {
    && (exists s :: RingOk(s) && st.sv == Start(f, s))
    && st.sv.sendTime <= st.time && st.status == Running && st.sent == {} && st.commands == [] && st.lastCommand == 0
    && st.cl == Receiver(0, [], false)
  }

  predicate Enabled(st: State, e: Event) {
    && st.sv.Shaped()
    && match e
       case Frame(_, now) => st.status == Running && st.time <= now
       case Deliver(m) => m in st.sent
       case Issue => true
       case CommandPacket(n) => st.status == Running && 1 <= n <= |st.commands|
  }

  function BlockSize(fast: bool): nat {
    if fast then BLKSIZE_FAST else BLKSIZE
  }

  function Receive(cl: Receiver, m: Message): Receiver {
    if cl.done || m.num != cl.expected then cl
    else Receiver(cl.expected + 1, cl.accepted + m.data, m.size == 0)
  }

  /** What `SV_ClientCommand` does with a command numbered `n`, on behalf of the download. */
  function HandleCommand(st: State, n: nat): State
    requires st.sv.Shaped() && 1 <= n <= |st.commands|
  {
    if n <= st.lastCommand then st
    else if n > st.lastCommand + 1 then st.(status := Dropped)
    else
      match st.commands[n - 1]
      case Other => st.(lastCommand := n)
      case NextDownload(block) =>
        var a := Acknowledge(st.sv, block, st.time);
        st.(lastCommand := n, sv := a.sender,
            status := match a.verdict case Advanced => Running case Completed => Finished case Broken => Dropped)
  }

  function Step(f: File, st: State, e: Event): State
    requires Enabled(st, e)
  {
    match e
    case Frame(fast, now) =>
      var w := Write(f, st.sv, BlockSize(fast), now);
      st.(sv := w.sender, time := now, sent := st.sent + if w.outcome.Sent? then {w.outcome.message} else {})
    case Deliver(m) =>
      var cl := Receive(st.cl, m);
      st.(cl := cl, commands := st.commands + if cl == st.cl then [] else [NextDownload(m.num)])
    case Issue => st.(commands := st.commands + [Other])
    case CommandPacket(n) => HandleCommand(st, n)
  }

  // ----- the protocol invariant -------------------------------------------------------------

  function Acks(commands: seq<Command>): nat {
    if commands == [] then 0
    else Acks(commands[..|commands| - 1]) + if commands[|commands| - 1].NextDownload? then 1 else 0
  }

  lemma {:induction false} AcksMonotone(commands: seq<Command>, i: nat)
    requires i <= |commands|
    ensures Acks(commands[..i]) <= Acks(commands)
  {
    if i < |commands| {
      AcksMonotone(commands[..|commands| - 1], i);
      assert commands[..|commands| - 1][..i] == commands[..i];
    } else {
      assert commands[..i] == commands;
    }
  }

  /** The `i`-th acknowledgement issued is for block `i`. */
  ghost predicate AcksInOrder(commands: seq<Command>) {
    forall i | 0 <= i < |commands| && commands[i].NextDownload? :: commands[i].block == Acks(commands[..i])
  }

  /** A message numbered at or above the window's start carries its own block, and none is more
      than a window ahead of the next transmission. */
  ghost predicate MessageOk(sv: Sender, m: Message) {
    && 0 <= m.num < |sv.blocks| && m.num < sv.xmit + WINDOW
    && m.size == |m.data|
    && (m.num >= sv.client ==> m.data == sv.blocks[m.num])
  }

  ghost predicate ReceiverOk(sv: Sender, cl: Receiver) {
    && cl.expected <= |sv.blocks| && cl.expected <= sv.xmit + WINDOW
    && cl.accepted == Concat(sv.blocks[..cl.expected])
    && (cl.done <==> cl.expected > 0 && sv.blocks[cl.expected - 1] == [])
  }

  ghost predicate ChannelOk(st: State) {
    && AcksInOrder(st.commands)
    && st.lastCommand <= |st.commands|
    && st.cl.expected == Acks(st.commands)
    && (st.status == Running ==> st.sv.client == Acks(st.commands[..st.lastCommand]))
    && st.sv.client <= st.cl.expected
  }

  ghost predicate Inv(f: File, st: State) {
    && SenderOk(f, st.sv)
    && (forall m | m in st.sent :: MessageOk(st.sv, m))
    && ReceiverOk(st.sv, st.cl)
    && ChannelOk(st)
    && (st.status == Finished ==> st.cl.done)
    && st.sv.sendTime <= st.time
  }

  lemma {:induction false} InitialInv(f: File, st: State)
    requires FileOk(f) && Initial(f, st)
    ensures Inv(f, st)
  {
    var s :| RingOk(s) && st.sv == Start(f, s);
    StartOk(f, s);
  }

  lemma PrefixOf<T>(a: seq<T>, b: seq<T>, n: nat)
    requires a <= b && n <= |a|
    ensures a[..n] == b[..n]
  {
  }

  lemma {:induction false} FrameInv(f: File, st: State, fast: bool, now: int)
    requires FileOk(f) && Inv(f, st) && Enabled(st, Frame(fast, now))
    ensures Inv(f, Step(f, st, Frame(fast, now)))
  {
    hide Spelled, Retained, RingOk, FileOk, Write, Concat, Acks, AcksInOrder;
    var w := Write(f, st.sv, BlockSize(fast), now);
    WriteOk(f, st.sv, BlockSize(fast), now);
    PrefixOf(st.sv.blocks, w.sender.blocks, st.cl.expected);
  }

  /** The client accepts a message only if it carries the block the client is waiting for. */
  lemma {:induction false} ReceiveOk(sv: Sender, cl: Receiver, m: Message)
    requires MessageOk(sv, m) && ReceiverOk(sv, cl) && sv.client <= cl.expected
    ensures ReceiverOk(sv, Receive(cl, m))
  {
    if Receive(cl, m) != cl {
      assert sv.blocks[..m.num + 1][..m.num] == sv.blocks[..m.num];
    }
  }

  lemma {:induction false} AppendCommand(commands: seq<Command>, c: Command)
    requires AcksInOrder(commands) && (c.NextDownload? ==> c.block == Acks(commands))
    ensures AcksInOrder(commands + [c])
    ensures Acks(commands + [c]) == Acks(commands) + if c.NextDownload? then 1 else 0
  {
    var longer := commands + [c];
    assert longer[..|commands|] == commands;
    forall i | 0 <= i < |longer| && longer[i].NextDownload?
      ensures longer[i].block == Acks(longer[..i])
    {
      assert longer[..i] == commands[..i];
    }
  }

  lemma {:induction false} IssuedChannelOk(st: State, cl: Receiver, c: Command)
    requires ChannelOk(st) && (c.NextDownload? ==> c.block == st.cl.expected)
    requires cl.expected == st.cl.expected + if c.NextDownload? then 1 else 0
    ensures ChannelOk(st.(cl := cl, commands := st.commands + [c]))
  {
    AppendCommand(st.commands, c);
    assert (st.commands + [c])[..st.lastCommand] == st.commands[..st.lastCommand];
  }

  lemma {:induction false} DeliverInv(f: File, st: State, m: Message)
    requires FileOk(f) && Inv(f, st) && Enabled(st, Deliver(m))
    ensures Inv(f, Step(f, st, Deliver(m)))
  {
    ReceiveOk(st.sv, st.cl, m);
    if Receive(st.cl, m) != st.cl {
      IssuedChannelOk(st, Receive(st.cl, m), NextDownload(m.num));
    } else {
      assert Step(f, st, Deliver(m)) == st;
    }
  }

  lemma {:induction false} IssueInv(f: File, st: State)
    requires Inv(f, st) && Enabled(st, Issue)
    ensures Inv(f, Step(f, st, Issue))
  {
    IssuedChannelOk(st, st.cl, Other);
  }

  /** An acknowledgement that reaches the server in sequence is for the oldest block in the
      window, so an honest client is never dropped for a broken download. */
  lemma {:induction false} CommandInv(f: File, st: State, n: nat)
    requires FileOk(f) && Inv(f, st) && Enabled(st, CommandPacket(n))
    ensures Inv(f, Step(f, st, CommandPacket(n)))
    ensures Step(f, st, CommandPacket(n)).status == Dropped <==> n > st.lastCommand + 1
  {
    hide Concat, FileOk, RingOk, Holds;
    var st' := Step(f, st, CommandPacket(n));
    if n == st.lastCommand + 1 {
      assert st.commands[..n][..st.lastCommand] == st.commands[..st.lastCommand];
      AcksMonotone(st.commands, n);
      if st.commands[n - 1].NextDownload? {
        AcknowledgeOk(f, st.sv, st.sv.client, st.time);
      }
    }
  }

  lemma {:induction false} StepInv(f: File, st: State, e: Event)
    requires FileOk(f) && Inv(f, st) && Enabled(st, e)
    ensures Inv(f, Step(f, st, e))
  {
    match e
    case Frame(fast, now) => FrameInv(f, st, fast, now);
    case Deliver(m) => DeliverInv(f, st, m);
    case Issue => IssueInv(f, st);
    case CommandPacket(n) => CommandInv(f, st, n);
  }

  // ----- runs -------------------------------------------------------------------------------

  /** A run: each event enabled in the state that the events before it lead to. */
  ghost predicate IsRun(f: File, st: State, events: seq<Event>)
    decreases |events|
  {
    events != [] ==> Enabled(st, events[0]) && IsRun(f, Step(f, st, events[0]), events[1..])
  }

  ghost function Final(f: File, st: State, events: seq<Event>): State
    requires IsRun(f, st, events)
    decreases |events|
  {
    if events == [] then st else Final(f, Step(f, st, events[0]), events[1..])
  }

  lemma {:induction false} RunInv(f: File, st: State, events: seq<Event>)
    requires FileOk(f) && Inv(f, st) && IsRun(f, st, events)
    ensures Inv(f, Final(f, st, events))
    decreases |events|
  {
    if events == [] {
    } else {
      StepInv(f, st, events[0]);
      RunInv(f, Step(f, st, events[0]), events[1..]);
    }
  }

  lemma {:induction false} ConcatPrefix(blocks: seq<Bytes>, k: nat)
    requires k <= |blocks|
    ensures Concat(blocks[..k]) <= Concat(blocks)
  {
    if k < |blocks| {
      ConcatPrefix(blocks[..|blocks| - 1], k);
      assert blocks[..|blocks| - 1][..k] == blocks[..k];
    } else {
      assert blocks[..k] == blocks;
    }
  }

  lemma {:induction false} InvMeansSafe(f: File, st: State)
    requires FileOk(f) && Inv(f, st)
    ensures st.cl.accepted <= f.content
    ensures st.cl.done ==> st.cl.accepted == f.content || FailsAt(f, |st.cl.accepted|)
  {
    var sv, cl := st.sv, st.cl;
    ConcatPrefix(sv.blocks, cl.expected);
    if cl.done {
      assert sv.blocks[..cl.expected] == sv.blocks;
    }
  }

  /** Whatever the network does, at every moment the client holds a prefix of the file, and when
      it has accepted the empty block it holds the whole file, unless reading the file failed at
      exactly the byte where its copy ends. */
  lemma {:induction false} TransferSafety(f: File, st: State, events: seq<Event>)
    requires FileOk(f) && Initial(f, st) && IsRun(f, st, events)
    ensures var end := Final(f, st, events);
            && end.cl.accepted <= f.content
            && (end.cl.done ==> end.cl.accepted == f.content || FailsAt(f, |end.cl.accepted|))
            && (end.status == Finished ==> end.cl.done)
  {
    InitialInv(f, st);
    RunInv(f, st, events);
    InvMeansSafe(f, Final(f, st, events));
  }
}
