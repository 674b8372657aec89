/** The feed parser: cuts a received block into messages, logs each one and offers the
    decoded orders to the queue.
 */
module ItchParser {
  import opened Bits
  import opened Bytes
  import opened Collections
  import opened Crc32c
  import opened Orders
  import opened Itch
  import opened Wal

  /** `std::memcpy` into the mapped file. Bytes past its end are not modelled. */
  method CopyTo(file: array<byte>, offset: nat, bytes: seq<byte>)
    requires offset <= file.Length
    modifies file
    ensures file[..] == WriteAt(old(file[..]), offset, bytes)
  {
    var n := if |bytes| <= file.Length - offset then |bytes| else file.Length - offset;
    for i := 0 to n
      invariant forall j :: 0 <= j < file.Length ==>
                  file[j] == if offset <= j < offset + i then bytes[j - offset] else old(file[j])
    {
      file[offset + i] := bytes[i];
    }
    Written(old(file[..]), offset, bytes);
  }

  /** The stores of one frame. */
  method StoreTo(file: array<byte>, offset: nat, seqNum: nat, now: u64, t: byte, bytes: seq<byte>)
    requires offset + FRAME_SIZE <= file.Length
    modifies file
    ensures file[..] == StoreFrame(old(file[..]), offset, seqNum, now, t, bytes)
  {
    hide WriteAt, ToLE, CalculateCrc32, LogType;
    CopyTo(file, offset, [MARKER]);
    CopyTo(file, offset + 1, [LogType(t)]);
    CopyTo(file, offset + 2, ToLE(2, 1));
    CopyTo(file, offset + 4, ToLE(4, seqNum % 0x1_0000_0000));
    CopyTo(file, offset + 8, ToLE(8, now));
    CopyTo(file, offset + 16, bytes);
    CopyTo(file, offset + 60, ToLE(4, CalculateCrc32(file[offset..offset + 60])));
  }

  class MmapLogger {
    const file: array<byte>
    var curr: nat

    /** A new log file: all bytes zero. */
    constructor ()
      ensures fresh(file) && file.Length == 0x4000_0000 && curr == 0
      ensures forall j :: 0 <= j < file.Length ==> file[j] == 0
    {
      file := new byte[FILE_SIZE](_ => 0);
      curr := 0;
    }

    /** The offset of the next frame, or nothing when it would not fit in the file. */
    method ReserveFrame() returns (frame: Option<nat>)
      requires file.Length == FILE_SIZE
      modifies `curr
      ensures frame.Some? <==> old(curr) + 64 <= 0x4000_0000
      ensures frame.Some? ==> frame.value == old(curr) && curr == old(curr) + 64
      ensures frame.None? ==> curr == old(curr)
    {
      if curr + FRAME_SIZE > FILE_SIZE {
        return None;
      }
      frame := Some(curr);
      curr := curr + FRAME_SIZE;
    }
  }

  /** The messages that reach the log: those parsed before it is full. */
  function FirstFrames(ms: seq<Message>): seq<Message> {
    if |ms| <= MAX_FRAMES then ms else ms[..MAX_FRAMES]
  }

  lemma FirstFramesSnoc(ms: seq<Message>, m: Message)
    ensures FirstFrames(ms + [m]) ==
            if |FirstFrames(ms)| < MAX_FRAMES then FirstFrames(ms) + [m] else FirstFrames(ms)
  {
  }

  /** One turn of the parse loop on the cut. */
  lemma CutStep(b: seq<byte>)
    requires Cuttable(b) && b != [] && |b| >= MessageLength(b[0])
    ensures var n := MessageLength(b[0]);
            && n > 0
            && WholeMessage(Message(b[..n]))
            && Cuttable(b[n..])
            && Cut(b) == [Message(b[..n])] + Cut(b[n..])
  {
  }

  lemma CutEnd(b: seq<byte>)
    requires b == [] || |b| < MessageLength(b[0])
    ensures Cut(b) == []
  {
  }

  lemma SeenSnoc(ms: seq<Message>, m: Message)
    requires AllWhole(ms) && WholeMessage(m)
    ensures AllWhole(ms + [m])
    ensures DecodeAll(ms + [m]) == DecodeAll(ms) + DecodeMessage(m)
  {
    AllWholeSnoc(ms, m);
    var all := ms + [m];
    assert all[..|all| - 1] == ms;
  }

  class ItchParser {
    const logger: MmapLogger
    const clock: Clock
    var currSeqNum: u64
    /** The orders handed to `queue_.push`, whose result the parser ignores. */
    var offered: seq<Order>
    /** The messages logged, and all messages parsed. */
    ghost var logged: seq<Message>
    ghost var seen: seq<Message>

    /** The file is the log of the messages in `logged`, frame `k` numbered `k`. */
    ghost predicate LogOk()
      reads `currSeqNum, `logged, logger, logger.file
    {
      && logger.file.Length == FILE_SIZE
      && |logged| <= MAX_FRAMES
      && currSeqNum == |logged|
      && logger.curr == FRAME_SIZE * |logged|
      && AllWhole(logged)
      && logger.file[..] == LogFile(logged, clock, FILE_SIZE)
    }

    ghost predicate Valid()
      reads this, logger, logger.file
    {
      && LogOk()
      && AllWhole(seen)
      && logged == FirstFrames(seen)
      && offered == DecodeAll(seen)
    }

    constructor (clock: Clock)
      ensures Valid() && seen == [] && offered == []
      ensures fresh(logger) && fresh(logger.file) && this.clock == clock
    {
      var l := new MmapLogger();
      logger := l;
      this.clock := clock;
      currSeqNum := 0;
      offered, logged, seen := [], [], [];
      new;
      assert logger.file[..] == LogFile([], clock, FILE_SIZE);
    }

    /** Appends one frame; a full log skips the message. */
    method LogPayload(m: Message)
      requires LogOk() && WholeMessage(m)
      modifies `currSeqNum, `logged, logger, logger.file
      ensures LogOk()
      ensures logged == if |old(logged)| < 0x100_0000 then old(logged) + [m] else old(logged)
    {
      hide AllWhole, MessageLength, LogFile, StoreFrame;
      var frame := logger.ReserveFrame();
      if frame.Some? {
        LogStep(logged, m, clock, FILE_SIZE);
        StoreTo(logger.file, frame.value, currSeqNum, clock(currSeqNum), m.bytes[0], m.bytes);
        currSeqNum := currSeqNum + 1;
        logged := logged + [m];
      }
    }

    /** Logs the message at the head of `raw` and, if it is supported, decodes it and
        hands it to the queue. */
    method ParseMessage(m: Message, raw: seq<byte>)
      requires Valid() && WholeMessage(m) && m.bytes <= raw
      modifies this, logger, logger.file
      ensures Valid() && seen == old(seen) + [m]
    {
      hide LogOk, AllWhole, MessageLength, FirstFrames, DecodeAll, ParseAddOrder, ParseExecutedOrder, ParseCancelOrder, ExtractHeader;
      var t := raw[0];
      DecodeDependsOnMessage(t, raw, m.bytes);
      SeenSnoc(seen, m);
      FirstFramesSnoc(seen, m);
      SupportedLengths();
      LogPayload(m);
      seen := seen + [m];
      if t == TYPE_ADD {
        offered := offered + [ParseAddOrder(raw, ExtractHeader(raw))];
      } else if t == TYPE_EXECUTE {
        offered := offered + [ParseExecutedOrder(raw, ExtractHeader(raw))];
      } else if t == TYPE_CANCEL {
        offered := offered + [ParseCancelOrder(raw, ExtractHeader(raw))];
      }
    }

    /** Parses a block. It ends on every block whose message boundaries carry known types,
        and has then seen exactly the whole messages of the block, in order. */
    method ParseBlock(block: seq<byte>)
      requires Valid() && Cuttable(block)
      modifies this, logger, logger.file
      ensures Valid() && seen == old(seen) + Cut(block)
    {
      hide MessageLength, Cut, Cuttable, WholeMessage, Valid;
      ghost var done: seq<Message> := [];
      var ptr, len := 0, |block|;
      while true
        invariant 0 <= ptr && 0 <= len && ptr + len == |block|
        invariant Valid() && Cuttable(block[ptr..])
        invariant seen == old(seen) + done && done + Cut(block[ptr..]) == Cut(block)
        decreases len
      {
        ghost var rest := block[ptr..];
        if len == 0 {
          CutEnd(rest);
          return;
        }
        var t := block[ptr];
        var n := MessageLength(t);
        if len < n {
          CutEnd(rest);
          return;
        }
        CutStep(rest);
        var m := Message(block[ptr..ptr + n]);
        assert m.bytes == rest[..n] && block[ptr + n..] == rest[n..];
        ParseMessage(m, block[ptr..]);
        SeqAssoc(done, [m], Cut(rest[n..]));
        SeqAssoc(old(seen), done, [m]);
        done := done + [m];
        ptr, len := ptr + n, len - n;
      }
    }
  }
}
