/** The sending side of a file download: `custom_SV_WriteDownloadToClient`, the intended body of
    `SV_NextDownload_f`, and the invariant of the eight-slot ring between them. */
module Downloads {
  import opened CTypes

  const WINDOW := 8
  const BLKSIZE := 2048
  const BLKSIZE_FAST := 0x2000
  const RETRANSMIT_MSEC := 1000
  const DOWNLOAD_RATE := 25000
  const DOWNLOAD_SNAPSHOT_MSEC := 50

  type Bytes = seq<Byte>

  /** A file on the server. `read(pos, n)` is what `FS_Read` returns for `n` bytes at `pos`; it is
      consulted at most once per position, so a fixed function covers every mix of short reads
      and errors. */
  datatype File = File(content: Bytes, read: (nat, nat) -> int)

  /** `FS_Read` never returns more than it was asked for or more than is left, and returns
      something positive or an error while bytes remain. */
  ghost predicate FileOk(f: File) {
    && |f.content| > 0
    && forall pos: nat, n: nat | pos < |f.content| && n > 0 ::
         f.read(pos, n) != 0 && f.read(pos, n) <= n && f.read(pos, n) <= |f.content| - pos
  }

  /** One of the reads the server makes at this position fails. */
  ghost predicate FailsAt(f: File, pos: nat) {
    pos < |f.content| && exists n | IsBlockSize(n) :: f.read(pos, n) < 0
  }

  predicate IsBlockSize(n: nat) {
    n == BLKSIZE || n == BLKSIZE_FAST
  }

  function Slice(s: Bytes, lo: int, n: int): Bytes {
    if 0 <= lo <= |s| && 0 <= n <= |s| - lo then s[lo..lo + n] else []
  }

  datatype Message = Message(num: int, fileSize: Option<int>, size: int, data: Bytes)

  /** The download fields of `client_t`, the read position of the open file, and the list of all
      blocks produced so far, which only the proofs look at. */
  datatype Sender = Sender(
    size: int, count: int, client: int, current: int, xmit: int,
    buffers: seq<Bytes>, sizes: seq<int>, eof: bool, sendTime: int,
    pos: nat, blocks: seq<Bytes>)
  {
    predicate Shaped() {
      |buffers| == WINDOW && |sizes| == WINDOW && 0 <= client && 0 <= current && 0 <= xmit
    }
  }

  datatype Outcome = Idle | Waiting | Sent(message: Message)

  datatype Written = Written(sender: Sender, outcome: Outcome)

  // ----- what one call computes -------------------------------------------------------------

  predicate MustRead(s: Sender) {
    s.current - s.client < WINDOW && s.size != s.count
  }

  /** One turn of the fill loop. */
  function ReadBlock(f: File, s: Sender, blksize: nat): (r: Sender)
    requires s.Shaped()
    ensures r.Shaped()
  {
    var i := s.current % WINDOW;
    var n := f.read(s.pos, blksize);
    if n < 0 then
      s.(sizes := s.sizes[i := n], count := s.size)
    else
      var data := Slice(f.content, s.pos, n);
      s.(sizes := s.sizes[i := n], buffers := s.buffers[i := data], pos := s.pos + n,
         count := s.count + n, current := s.current + 1, blocks := s.blocks + [data])
  }

  function Fill(f: File, s: Sender, blksize: nat): (r: Sender)
    requires s.Shaped()
    ensures r.Shaped()
    decreases if s.size == s.count then 0 else 1, WINDOW - (s.current - s.client)
  {
    if MustRead(s) then Fill(f, ReadBlock(f, s, blksize), blksize) else s
  }

  function MarkEof(s: Sender): (r: Sender)
    requires s.Shaped()
    ensures r.Shaped()
  {
    if s.count == s.size && !s.eof && s.current - s.client < WINDOW then
      s.(sizes := s.sizes[s.current % WINDOW := 0], current := s.current + 1, eof := true, blocks := s.blocks + [[]])
    else s
  }

  function Settle(f: File, s: Sender, blksize: nat): (r: Sender)
    requires s.Shaped()
    ensures r.Shaped()
  {
    MarkEof(Fill(f, s, blksize))
  }

  function BlockMessage(s: Sender, num: int): Message
    requires s.Shaped() && num >= 0
  {
    var i := num % WINDOW;
    Message(num, if num == 0 then Some(s.size) else None, s.sizes[i], Slice(s.buffers[i], 0, s.sizes[i]))
  }

  function Transmit(s: Sender, now: int): (w: Written)
    requires s.Shaped()
    ensures w.sender.Shaped()
  {
    if s.client == s.current then Written(s, Idle)
    else if s.xmit == s.current && now - s.sendTime <= RETRANSMIT_MSEC then Written(s, Waiting)
    else
      var num := if s.xmit == s.current then s.client else s.xmit;
      Written(s.(xmit := num + 1, sendTime := now), Sent(BlockMessage(s, num)))
  }

  function Write(f: File, s: Sender, blksize: nat, now: int): (w: Written)
    requires s.Shaped()
    ensures w.sender.Shaped()
  {
    Transmit(Settle(f, s, blksize), now)
  }

  /** The counters of a download that has just been opened. */
  function Start(f: File, s: Sender): Sender {
    s.(size := |f.content|, count := 0, client := 0, current := 0, xmit := 0, eof := false, pos := 0, blocks := [])
  }

  datatype AckVerdict = Advanced | Completed | Broken

  datatype Acknowledged = Acknowledged(sender: Sender, verdict: AckVerdict)

  function Acknowledge(s: Sender, block: int, now: int): Acknowledged
    requires s.Shaped()
  {
    if block != s.client then Acknowledged(s, Broken)
    else if s.sizes[s.client % WINDOW] == 0 then Acknowledged(s, Completed)
    else Acknowledged(s.(sendTime := now, client := s.client + 1), Advanced)
  }

  // ----- the client_t object ----------------------------------------------------------------

  datatype Refusal = ServerDisabledPure | ServerDisabled | GamePak | FileNotOnServer

  datatype Reply = NoDownload | Refused(why: Refusal) | Wrote(outcome: Outcome)

  /** The cvars and file-system answers one call may consult. `found` is what opening the named
      file yields. */
  datatype Settings = Settings(allowDownload: bool, pure: bool, fastDownload: bool, isGamePak: bool,
                               found: Option<File>)

  class ClientDownload {
    var state: ClientState
    var rate: int
    var snapshotMsec: int
    var hasDownloadName: bool
    var download: bool
    var file: File
    var filePos: nat
    var downloadSize: int
    var downloadCount: int
    var downloadClientBlock: int
    var downloadCurrentBlock: int
    var downloadXmitBlock: int
    const downloadBlocks: array<Bytes>
    const downloadBlockSize: array<int>
    var downloadEOF: bool
    var downloadSendTime: int
    ghost var blocks: seq<Bytes>

    ghost function GetSender(): Sender
      reads `downloadSize, `downloadCount, `downloadClientBlock, `downloadCurrentBlock, `downloadXmitBlock,
            `downloadEOF, `downloadSendTime, `filePos, `blocks, downloadBlocks, downloadBlockSize
    {
      Sender(downloadSize, downloadCount, downloadClientBlock, downloadCurrentBlock, downloadXmitBlock,
             downloadBlocks[..], downloadBlockSize[..], downloadEOF, downloadSendTime, filePos, blocks)
    }

    /** An open download is in the state the sender's invariant describes. */
    ghost predicate Valid()
      reads `download, `file,
            `downloadSize, `downloadCount, `downloadClientBlock, `downloadCurrentBlock, `downloadXmitBlock,
            `downloadEOF, `downloadSendTime, `filePos, `blocks, downloadBlocks, downloadBlockSize
    {
      && downloadBlocks.Length == downloadBlockSize.Length == WINDOW
      && 0 <= downloadClientBlock && 0 <= downloadCurrentBlock && 0 <= downloadXmitBlock
      && (if download then FileOk(file) && SenderOk(file, GetSender()) else RingOk(GetSender()))
    }

    /** The first part of `custom_SV_WriteDownloadToClient`: open the file, or say why not. */
    method OpenDownload(settings: Settings) returns (refusal: Option<Refusal>)
      requires Valid() && !download &&
               (settings.found.Some? && |settings.found.value.content| > 0 ==> FileOk(settings.found.value))
      modifies this`download, this`file, this`filePos, this`downloadSize, this`downloadCount, this`downloadClientBlock,
               this`downloadCurrentBlock, this`downloadXmitBlock, this`downloadEOF, this`blocks
      ensures Valid() && refusal == CannotStart(settings) && download == refusal.None?
      ensures download <==> settings.allowDownload && !settings.isGamePak
                            && settings.found.Some? && settings.found.value.content != []
      ensures refusal == Some(ServerDisabledPure) <==> !settings.allowDownload && settings.pure
      ensures refusal == Some(ServerDisabled) <==> !settings.allowDownload && !settings.pure
      ensures refusal == Some(GamePak) <==> settings.allowDownload && settings.isGamePak
      ensures refusal == Some(FileNotOnServer)
              <==> settings.allowDownload && !settings.isGamePak
                   && (settings.found.Some? ==> settings.found.value.content == [])
      ensures download ==> file == settings.found.value && GetSender() == Start(file, old(GetSender()))
    {
      hide SenderOk, FileOk;
      if !settings.allowDownload {
        if settings.pure {
          return Some(ServerDisabledPure);
        } else {
          return Some(ServerDisabled);
        }
      }
      if settings.isGamePak {
        return Some(GamePak);
      }
      downloadSize := if settings.found.None? then -1 else |settings.found.value.content|;
      if downloadSize <= 0 {
        return Some(FileNotOnServer);
      }
      InitDownload(settings.found.value);
      return None;
    }

    /** Take the opened file, and start counting from zero. */
    method InitDownload(f: File)
      requires RingOk(GetSender()) && downloadBlocks.Length == downloadBlockSize.Length == WINDOW
      requires FileOk(f) && downloadSize == |f.content|
      modifies this`download, this`file, this`filePos, this`downloadCount, this`downloadClientBlock,
               this`downloadCurrentBlock, this`downloadXmitBlock, this`downloadEOF, this`blocks
      ensures Valid() && download && file == f && GetSender() == Start(f, old(GetSender()))
    {
      hide SenderOk, FileOk, RingOk;
      StartOk(f, GetSender());
      download := true;
      file := f;
      filePos := 0;
      downloadCurrentBlock := 0;
      downloadClientBlock := 0;
      downloadXmitBlock := 0;
      downloadCount := 0;
      downloadEOF := false;
      blocks := [];
    }

    /** The middle part: read blocks into the ring. */
    method FillWindow(blksize: nat)
      requires GetSender().Shaped()
      modifies this`filePos, this`downloadCount, this`downloadCurrentBlock, this`blocks,
               downloadBlocks, downloadBlockSize
      ensures GetSender() == Fill(file, old(GetSender()), blksize)
    {
      ghost var start := GetSender();
      while downloadCurrentBlock - downloadClientBlock < WINDOW && downloadSize != downloadCount
        invariant GetSender().Shaped()
        invariant Fill(file, GetSender(), blksize) == Fill(file, start, blksize)
        decreases if downloadSize == downloadCount then 0 else 1, WINDOW - (downloadCurrentBlock - downloadClientBlock)
      {
        ghost var s := GetSender();
        var curindex := downloadCurrentBlock % WINDOW;
        var n := file.read(filePos, blksize);
        downloadBlockSize[curindex] := n;
        if n < 0 {
          downloadCount := downloadSize;
          assert GetSender() == ReadBlock(file, s, blksize);
          break;
        }
        var data := Slice(file.content, filePos, n);
        downloadBlocks[curindex] := data;
        blocks := blocks + [data];
        filePos := filePos + n;
        downloadCount := downloadCount + n;
        downloadCurrentBlock := downloadCurrentBlock + 1;
        assert GetSender() == ReadBlock(file, s, blksize);
      }
    }

    /** Add the end marker after the last block, once there is room for it. */
    method AddEndMarker()
      requires GetSender().Shaped()
      modifies this`downloadCurrentBlock, this`downloadEOF, this`blocks, downloadBlockSize
      ensures GetSender() == MarkEof(old(GetSender()))
    {
      if downloadCount == downloadSize && !downloadEOF && downloadCurrentBlock - downloadClientBlock < WINDOW {
        downloadBlockSize[downloadCurrentBlock % WINDOW] := 0;
        downloadCurrentBlock := downloadCurrentBlock + 1;
        downloadEOF := true;
        blocks := blocks + [[]];
      }
    }

    /** The last part: send the next block, going back to the oldest one when the timer fires. */
    method TransmitBlock(now: int) returns (outcome: Outcome)
      requires GetSender().Shaped()
      modifies this`downloadXmitBlock, this`downloadSendTime
      ensures Written(GetSender(), outcome) == Transmit(old(GetSender()), now)
    {
      if downloadClientBlock == downloadCurrentBlock {
        return Idle;
      }
      if downloadXmitBlock == downloadCurrentBlock {
        if now - downloadSendTime > RETRANSMIT_MSEC {
          downloadXmitBlock := downloadClientBlock;
        } else {
          return Waiting;
        }
      }
      var curindex := downloadXmitBlock % WINDOW;
      var fileSize := if downloadXmitBlock == 0 then Some(downloadSize) else None;
      var data := if downloadBlockSize[curindex] != 0
                  then Slice(downloadBlocks[curindex], 0, downloadBlockSize[curindex]) else [];
      var message := Message(downloadXmitBlock, fileSize, downloadBlockSize[curindex], data);
      downloadXmitBlock := downloadXmitBlock + 1;
      downloadSendTime := now;
      return Sent(message);
    }

    /** Filling and sending together keep the invariant. */
    method WriteBlock(blksize: nat, now: int) returns (outcome: Outcome)
      requires Valid() && download && IsBlockSize(blksize)
      modifies this`filePos, this`downloadCount, this`downloadCurrentBlock, this`downloadEOF, this`blocks,
               this`downloadXmitBlock, this`downloadSendTime, downloadBlocks, downloadBlockSize
      ensures Valid()
      ensures Written(GetSender(), outcome) == Write(file, old(GetSender()), blksize, now)
    {
      WriteOk(file, GetSender(), blksize, now);
      FillWindow(blksize);
      AddEndMarker();
      outcome := TransmitBlock(now);
    }

    /** `custom_SV_WriteDownloadToClient`. */
    method WriteDownloadToClient(settings: Settings, now: int) returns (reply: Reply)
      requires Valid() && (settings.found.Some? && |settings.found.value.content| > 0 ==> FileOk(settings.found.value))
      modifies this, downloadBlocks, downloadBlockSize
      ensures Valid()
      ensures reply == NoDownload <==> !old(hasDownloadName)
      ensures !reply.Refused? ==> hasDownloadName == old(hasDownloadName)
      ensures reply == NoDownload ==>
                GetSender() == old(GetSender()) && download == old(download) && file == old(file)
                && state == old(state) && rate == old(rate) && snapshotMsec == old(snapshotMsec)
      ensures reply != NoDownload ==>
              state == CONNECTED && rate == DOWNLOAD_RATE && snapshotMsec == DOWNLOAD_SNAPSHOT_MSEC
      ensures old(hasDownloadName) && !old(download) && CannotStart(settings).Some? ==>
                reply == Refused(CannotStart(settings).value) && !download
      ensures old(hasDownloadName) && (old(download) || CannotStart(settings).None?) ==>
                var f := if old(download) then old(file) else settings.found.value;
                var s := if old(download) then old(GetSender()) else Start(f, old(GetSender()));
                var blksize := if settings.fastDownload then BLKSIZE_FAST else BLKSIZE;
                && download && file == f && reply.Wrote?
                && Written(GetSender(), reply.outcome) == Write(f, s, blksize, now)
    {
      hide SenderOk, FileOk, RingOk, Write;
      if !hasDownloadName {
        return NoDownload;
      }
      state := CONNECTED;
      rate := DOWNLOAD_RATE;
      snapshotMsec := DOWNLOAD_SNAPSHOT_MSEC;

      if !download {
        var refusal := OpenDownload(settings);
        if refusal.Some? {
          return Refused(refusal.value);
        }
      }
      assert GetSender() == if old(download) then old(GetSender()) else Start(file, old(GetSender()));
      var blksize := if settings.fastDownload then BLKSIZE_FAST else BLKSIZE;
      var outcome := WriteBlock(blksize, now);
      return Wrote(outcome);
    }

    /** `SV_NextDownload_f`, as its disabled body intends it. On `Completed` the caller closes the
        download, on `Broken` it drops the client. A client that acknowledges the next block before
        it has been read, while the slot it will go to holds an older one, pushes the window past
        its end; nothing else does. */
    method NextDownload(block: int, now: int) returns (verdict: AckVerdict)
      requires Valid() && download
      modifies this`downloadClientBlock, this`downloadSendTime, this`download, this`hasDownloadName
      ensures Acknowledged(GetSender(), verdict) == Acknowledge(old(GetSender()), block, now)
      ensures download == (verdict != Completed)
      ensures hasDownloadName == (old(hasDownloadName) && verdict != Completed)
      ensures Valid() <==> !old(Overtakes(GetSender(), block))
    {
      AcknowledgeOk(file, GetSender(), block, now);
      if block == downloadClientBlock {
        if downloadBlockSize[downloadClientBlock % WINDOW] == 0 {
          download := false;
          hasDownloadName := false;
          return Completed;
        }
        downloadSendTime := now;
        downloadClientBlock := downloadClientBlock + 1;
        return Advanced;
      }
      return Broken;
    }
  }

  /** Why a download cannot be opened, if it cannot. */
  function CannotStart(settings: Settings): Option<Refusal> {
    if !settings.allowDownload then Some(if settings.pure then ServerDisabledPure else ServerDisabled)
    else if settings.isGamePak then Some(GamePak)
    else if settings.found.None? || |settings.found.value.content| == 0 then Some(FileNotOnServer)
    else None
  }

  // ----- the sender's invariant -------------------------------------------------------------

  function Concat(blocks: seq<Bytes>): Bytes {
    if blocks == [] then [] else Concat(blocks[..|blocks| - 1]) + blocks[|blocks| - 1]
  }

  /** Slot sizes are lengths of what the slots hold, except where a read has just failed. */
  ghost predicate RingOk(s: Sender) {
    && |s.buffers| == WINDOW && |s.sizes| == WINDOW
    && forall i | 0 <= i < WINDOW :: 0 <= s.sizes[i] <= |s.buffers[i]|
  }

  ghost predicate Holds(s: Sender, k: int)
    requires s.Shaped() && 0 <= k < |s.blocks|
  {
    s.sizes[k % WINDOW] == |s.blocks[k]| && Slice(s.buffers[k % WINDOW], 0, |s.blocks[k]|) == s.blocks[k]
  }

  ghost predicate CountersOk(f: File, s: Sender) {
    && s.Shaped()
    && s.client <= s.current <= s.client + WINDOW && s.xmit <= s.current
    && |s.blocks| == s.current
    && s.size == |f.content| && s.pos <= s.size && (s.count == s.pos || (s.count == s.size && FailsAt(f, s.pos)))
    && (s.eof ==> s.count == s.size && s.client < s.current)
  }

  /** The window holds at most eight blocks, slot `k % 8` holds block `k` for the last eight blocks
      read, acknowledged or not, the blocks so far spell the file up to the read position, and the
      one empty block is the last. */
  ghost predicate SenderOk(f: File, s: Sender) {
    && CountersOk(f, s) && RingOk(s) && Spelled(f, s) && Retained(s, WINDOW)
  }

  ghost predicate Spelled(f: File, s: Sender)
    requires CountersOk(f, s)
  {
    && Concat(s.blocks) == f.content[..s.pos]
    && (forall k | 0 <= k < s.current :: s.blocks[k] == [] <==> (s.eof && k == s.current - 1))
  }

  /** The ring still holds the last `n` blocks. */
  ghost predicate Retained(s: Sender, n: nat)
    requires s.Shaped() && |s.blocks| == s.current
  {
    forall k | 0 <= k < s.current <= k + n :: Holds(s, k)
  }

  lemma StartOk(f: File, s: Sender)
    requires FileOk(f) && RingOk(s)
    ensures SenderOk(f, Start(f, s))
  {
  }

  lemma {:induction false} ReadBlockOk(f: File, s: Sender, blksize: nat)
    requires FileOk(f) && SenderOk(f, s) && MustRead(s) && IsBlockSize(blksize)
    ensures var r := ReadBlock(f, s, blksize);
            && CountersOk(f, r) && Spelled(f, r) && r.client == s.client && r.xmit == s.xmit && s.blocks <= r.blocks
            && (r.current == s.current ==> r.count == r.size && !r.eof && r.current - r.client < WINDOW
                                           && RingOk(r.(sizes := r.sizes[r.current % WINDOW := 0]))
                                           && Retained(r, WINDOW - 1))
            && (r.current != s.current ==> RingOk(r) && Retained(r, WINDOW))
  {
    hide Concat;
    var r := ReadBlock(f, s, blksize);
    var n := f.read(s.pos, blksize);
    var data := Slice(f.content, s.pos, n);
    if n > 0 {
      ConcatAppend(s.blocks, data);
      SliceAppend(f.content, s.pos, n);
      assert Holds(r, s.current);
    }
    forall k | 0 <= k < s.current < k + WINDOW
      ensures Holds(r, k)
    {
      OtherSlotKept(s, r, k);
    }
  }

  lemma {:induction false} ConcatAppend(blocks: seq<Bytes>, data: Bytes)
    ensures Concat(blocks + [data]) == Concat(blocks) + data
  {
    assert (blocks + [data])[..|blocks|] == blocks;
  }

  lemma SliceAppend(content: Bytes, pos: nat, n: nat)
    requires pos + n <= |content|
    ensures content[..pos] + Slice(content, pos, n) == content[..pos + n]
  {
  }

  /** Writing the slot of the current block leaves the other blocks of the window alone. */
  lemma {:induction false} OtherSlotKept(s: Sender, r: Sender, k: int)
    requires s.Shaped() && r.Shaped() && 0 <= k < s.current < k + WINDOW
             && |s.blocks| == s.current && s.blocks <= r.blocks
    requires Holds(s, k)
    requires r.sizes == s.sizes[s.current % WINDOW := r.sizes[s.current % WINDOW]]
    requires r.buffers == s.buffers[s.current % WINDOW := r.buffers[s.current % WINDOW]]
    ensures Holds(r, k)
  {
    DistinctSlots(k, s.current);
  }

  /** Block numbers less than a window apart live in different slots. */
  lemma DistinctSlots(j: int, k: int)
    requires 0 <= j < k < j + WINDOW
    ensures j % WINDOW != k % WINDOW
  {
  }

  /** What the fill loop leaves: a settled sender, or one whose last read failed and whose
      failed slot is about to become the end marker. */
  ghost predicate Filled(f: File, s: Sender, r: Sender)
    requires s.Shaped()
  {
    && CountersOk(f, r) && Spelled(f, r) && r.client == s.client && r.xmit == s.xmit && s.blocks <= r.blocks
    && !MustRead(r) && r.sendTime == s.sendTime && (s.eof <==> r.eof)
    && ((RingOk(r) && Retained(r, WINDOW))
        || (r.count == r.size && !r.eof && r.current - r.client < WINDOW
            && RingOk(r.(sizes := r.sizes[r.current % WINDOW := 0])) && Retained(r, WINDOW - 1)))
  }

  lemma {:induction false} FillOk(f: File, s: Sender, blksize: nat)
    requires FileOk(f) && SenderOk(f, s) && IsBlockSize(blksize)
    ensures Filled(f, s, Fill(f, s, blksize))
    decreases if s.size == s.count then 0 else 1, WINDOW - (s.current - s.client)
  {
    if !MustRead(s) {
    } else {
      ReadBlockOk(f, s, blksize);
      var r := ReadBlock(f, s, blksize);
      if r.current != s.current {
        FillOk(f, r, blksize);
      }
    }
  }

  lemma {:induction false} MarkEofOk(f: File, s: Sender, r: Sender)
    requires FileOk(f) && SenderOk(f, s) && Filled(f, s, r)
    ensures var m := MarkEof(r);
            && SenderOk(f, m) && m.client == s.client && m.xmit == s.xmit && s.blocks <= m.blocks
            && m.sendTime == s.sendTime && m.client < m.current
            && Settled(m)
  {
    hide Concat, FailsAt;
    var m := MarkEof(r);
    if m != r {
      ConcatAppend(r.blocks, []);
      forall k | 0 <= k < m.current <= k + WINDOW
        ensures Holds(m, k)
      {
        if k < r.current {
          OtherSlotKept(r, m, k);
        }
      }
    }
  }

  /** Nothing more can be read or marked until an acknowledgement moves the window. */
  predicate Settled(s: Sender) {
    !MustRead(s) && (s.eof || s.current >= s.client + WINDOW)
  }

  lemma SettledStays(f: File, s: Sender, blksize: nat)
    requires s.Shaped() && Settled(s)
    ensures Settle(f, s, blksize) == s
  {
  }

  /** Filling and marking keep the invariant and always leave something to transmit. */
  lemma {:induction false} SettleOk(f: File, s: Sender, blksize: nat)
    requires FileOk(f) && SenderOk(f, s) && IsBlockSize(blksize)
    ensures var m := Settle(f, s, blksize);
            && SenderOk(f, m) && m.client == s.client && m.xmit == s.xmit && s.blocks <= m.blocks
            && m.sendTime == s.sendTime && m.client < m.current && Settled(m)
  {
    FillOk(f, s, blksize);
    MarkEofOk(f, s, Fill(f, s, blksize));
  }

  /** The newest block read into the slot of block `num`. */
  function NewestInSlot(current: int, num: int): (j: int)
    requires 0 <= num < current
    ensures num <= j < current <= j + WINDOW && j % WINDOW == num % WINDOW
    ensures j == num <==> current <= num + WINDOW
  {
    current - 1 - (current - 1 - num) % WINDOW
  }

  /** One call of the writer: the invariant is kept, and the "nothing to transmit" return is never
      taken. A message carries the newest block of its slot, which is its own exactly if no more
      than seven blocks have been read after it. */
  lemma {:induction false} WriteOk(f: File, s: Sender, blksize: nat, now: int)
    requires FileOk(f) && SenderOk(f, s) && IsBlockSize(blksize)
    ensures var w := Write(f, s, blksize, now);
            && SenderOk(f, w.sender) && w.sender.client == s.client && s.blocks <= w.sender.blocks
            && Settled(w.sender)
            && w.outcome != Idle
            && (w.outcome == Waiting ==> w.sender.xmit == s.xmit && w.sender.sendTime == s.sendTime)
            && (w.outcome == Waiting <==> s.xmit == w.sender.current && now - s.sendTime <= RETRANSMIT_MSEC)
            && (w.outcome.Sent? ==>
                  var m := w.outcome.message;
                  && m.num == (if s.xmit == w.sender.current then s.client else s.xmit)
                  && 0 <= m.num < w.sender.current && w.sender.xmit == m.num + 1 && w.sender.sendTime == now
                  && m.size == |m.data|
                  && (m.num == 0 <==> m.fileSize.Some?) && (m.num == 0 ==> m.fileSize.value == |f.content|)
                  && m.data == w.sender.blocks[NewestInSlot(w.sender.current, m.num)]
                  && (m.num >= s.client ==> m.data == w.sender.blocks[m.num]))
  {
    hide Concat, FailsAt, FileOk, BlockMessage;
    SettleOk(f, s, blksize);
    var m := Settle(f, s, blksize);
    var num := if s.xmit == m.current then s.client else s.xmit;
    SameRing(m, Write(f, s, blksize, now).sender);
    MessageCarries(m, num);
  }

  lemma {:induction false} MessageCarries(s: Sender, num: int)
    requires s.Shaped() && |s.blocks| == s.current && Retained(s, WINDOW) && 0 <= num < s.current
    ensures var m := BlockMessage(s, num);
            && m.num == num && m.fileSize == (if num == 0 then Some(s.size) else None)
            && m.size == |m.data| && m.data == s.blocks[NewestInSlot(s.current, num)]
  {
    assert Holds(s, NewestInSlot(s.current, num));
  }

  lemma {:induction false} SameRing(s: Sender, r: Sender)
    requires s.Shaped() && r.Shaped() && |s.blocks| == s.current && Retained(s, WINDOW)
    requires r.sizes == s.sizes && r.buffers == s.buffers && r.blocks == s.blocks && r.current == s.current
    ensures Retained(r, WINDOW)
  {
    forall k | 0 <= k < r.current <= k + WINDOW
      ensures Holds(r, k)
    {
      assert Holds(s, k);
    }
  }

  /** The acknowledged block has not been read yet, but its slot holds an older one. */
  predicate Overtakes(s: Sender, block: int)
    requires s.Shaped()
  {
    block == s.client == s.current && s.sizes[s.client % WINDOW] != 0
  }

  /** An acknowledgement of the oldest block moves the window; the end marker is recognised by
      its size, and by nothing else. The invariant survives exactly if the acknowledgement does
      not overtake the reading. */
  lemma {:induction false} AcknowledgeOk(f: File, s: Sender, block: int, now: int)
    requires FileOk(f) && SenderOk(f, s)
    ensures var r := Acknowledge(s, block, now);
            && (r.verdict == Broken <==> block != s.client)
            && (SenderOk(f, r.sender) <==> !Overtakes(s, block))
            && (block < s.current ==> (r.verdict == Completed <==> block == s.client && s.blocks[block] == []))
  {
    hide Concat, FailsAt, FileOk;
    var r := Acknowledge(s, block, now);
    if block == s.client && block < s.current {
      assert Holds(s, block);
    }
    SameRing(s, r.sender);
  }
}
