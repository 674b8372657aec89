/** The write-ahead log: 64-byte frames in a fixed-size file that starts out all zero.

    The file is modelled byte by byte, because the payload copy is not bounded by the
    44-byte slot: the last bytes of a 50-byte message land in the frame that follows.
 */
module Wal {
  import opened Bits
  import opened Bytes
  import opened Crc32c
  import opened Itch

  const MARKER: byte := 0xAA
  const FRAME_SIZE: nat := 64
  const FILE_SIZE: nat := 0x4000_0000 // 1 << 30
  const MAX_FRAMES: nat := FILE_SIZE / FRAME_SIZE

  // ----- what one message becomes

  /** The first `n` bytes of `s`, zero-padded. */
  function Fit(s: seq<byte>, n: nat): (r: seq<byte>)
    ensures |r| == n
    ensures forall j :: 0 <= j < n ==> r[j] == if j < |s| then s[j] else 0
  {
    if |s| <= n then s + Zeros(n - |s|) else s[..n]
  }

  /** The type byte of a frame: unsupported messages are all logged as '-'. */
  function LogType(t: byte): byte {
    if Supported(t) then t else TYPE_OTHER
  }

  function FrameHeader(seqNum: nat, t: byte, timestamp: u64): (s: seq<byte>)
    ensures |s| == 16
  {
    [MARKER] + [LogType(t)] + ToLE(2, 1) + ToLE(4, seqNum % 0x1_0000_0000) + ToLE(8, timestamp)
  }

  /** The frame without its checksum. */
  function FrameBody(seqNum: nat, timestamp: u64, m: Message): (s: seq<byte>)
    requires WholeMessage(m)
    ensures |s| == 60
  {
    FrameHeader(seqNum, m.bytes[0], timestamp) + Fit(m.bytes, 44)
  }

  function Frame(seqNum: nat, timestamp: u64, m: Message): (s: seq<byte>)
    requires WholeMessage(m)
    ensures |s| == 64
  {
    var body := FrameBody(seqNum, timestamp, m);
    body + ToLE(4, CalculateCrc32(body))
  }

  /** The bytes of a message that land past its frame. */
  function Spill(m: seq<byte>): seq<byte> {
    if |m| > 48 then m[48..] else []
  }

  /** The readings of the time-stamp counter, one per logged frame. */
  type Clock = nat -> u64

  function Frames(ms: seq<Message>, clock: Clock): (s: seq<byte>)
    requires AllWhole(ms)
    ensures |s| == 64 * |ms|
  {
    if ms == [] then []
    else
      var n := |ms| - 1;
      Frames(ms[..n], clock) + Frame(n, clock(n), ms[n])
  }

  function LastSpill(ms: seq<Message>): seq<byte> {
    if ms == [] then [] else Spill(ms[|ms| - 1].bytes)
  }

  /** The log file of `size` bytes after the messages `ms`. */
  function LogFile(ms: seq<Message>, clock: Clock, size: nat): (s: seq<byte>)
    requires AllWhole(ms) && 64 * |ms| <= size
    ensures |s| == size
  {
    Frames(ms, clock) + Fit(LastSpill(ms), size - 64 * |ms|)
  }

  // ----- stores into the file

  /** Copy `bytes` to `offset`, as far as the file reaches. */
  function WriteAt(file: seq<byte>, offset: nat, bytes: seq<byte>): (r: seq<byte>)
    requires offset <= |file|
    ensures |r| == |file|
  {
    var n := if |bytes| <= |file| - offset then |bytes| else |file| - offset;
    file[..offset] + bytes[..n] + file[offset + n..]
  }

  lemma Written(file: seq<byte>, offset: nat, bytes: seq<byte>)
    requires offset <= |file|
    ensures forall j :: 0 <= j < |file| ==>
              WriteAt(file, offset, bytes)[j] == if offset <= j < offset + |bytes| then bytes[j - offset] else file[j]
  {
  }

  lemma WriteTwice(file: seq<byte>, offset: nat, a: seq<byte>, b: seq<byte>)
    requires offset + |a| <= |file|
    ensures WriteAt(WriteAt(file, offset, a), offset + |a|, b) == WriteAt(file, offset, a + b)
  {
  }

  /** A store behind a prefix leaves the prefix alone. */
  lemma WriteBehind(front: seq<byte>, back: seq<byte>, i: nat, bytes: seq<byte>)
    requires i <= |back|
    ensures WriteAt(front + back, |front| + i, bytes) == front + WriteAt(back, i, bytes)
  {
  }

  /** Zero but for the first two bytes: what lies behind the last frame. */
  ghost predicate Blank(s: seq<byte>) {
    forall j :: 2 <= j < |s| ==> s[j] == 0
  }

  /** Storing header, payload and checksum over blank space. */
  lemma WriteFrame(back: seq<byte>, header: seq<byte>, m: seq<byte>)
    requires |back| >= 64 && Blank(back) && |header| == 16 && |m| <= 50
    ensures var stored := WriteAt(back, 0, header + m);
            && stored[..60] == header + Fit(m, 44)
            && forall sum: seq<byte> :: |sum| == 4 ==>
                 WriteAt(stored, 60, sum) == header + Fit(m, 44) + sum + Fit(Spill(m), |back| - 64)
  {
    var stored, slot, spill := WriteAt(back, 0, header + m), Fit(m, 44), Fit(Spill(m), |back| - 64);
    Written(back, 0, header + m);
    hide WriteAt, Fit;
    forall j | 0 <= j < 60 ensures stored[j] == (header + slot)[j] {
    }
    forall sum: seq<byte> | |sum| == 4
      ensures WriteAt(stored, 60, sum) == header + slot + sum + spill
    {
      var r := WriteAt(stored, 60, sum);
      Written(stored, 60, sum);
      forall j | 0 <= j < |back| ensures r[j] == (header + slot + sum + spill)[j] {
        if j >= 64 { assert spill[j - 64] == stored[j]; }
      }
    }
  }

  /** The stores of `log_payload`, in order, at a reserved offset. */
  function StoreFrame(file: seq<byte>, offset: nat, seqNum: nat, timestamp: u64, t: byte, m: seq<byte>): seq<byte>
    requires offset + 64 <= |file|
  {
    var f1 := WriteAt(file, offset, [MARKER]);
    var f2 := WriteAt(f1, offset + 1, [LogType(t)]);
    var f3 := WriteAt(f2, offset + 2, ToLE(2, 1));
    var f4 := WriteAt(f3, offset + 4, ToLE(4, seqNum % 0x1_0000_0000));
    var f5 := WriteAt(f4, offset + 8, ToLE(8, timestamp));
    var f6 := WriteAt(f5, offset + 16, m);
    WriteAt(f6, offset + 60, ToLE(4, CalculateCrc32(f6[offset..offset + 60])))
  }

  /** The field stores are one store of header and payload. */
  lemma StoreIsOneWrite(file: seq<byte>, offset: nat, seqNum: nat, timestamp: u64, t: byte, m: seq<byte>)
    requires offset + 64 <= |file|
    ensures var stored := WriteAt(file, offset, FrameHeader(seqNum, t, timestamp) + m);
            StoreFrame(file, offset, seqNum, timestamp, t, m)
            == WriteAt(stored, offset + 60, ToLE(4, CalculateCrc32(stored[offset..offset + 60])))
  {
    var a, b, c, d, e := [MARKER], [LogType(t)], ToLE(2, 1), ToLE(4, seqNum % 0x1_0000_0000), ToLE(8, timestamp);
    hide WriteAt, CalculateCrc32, ToLE;
    WriteTwice(file, offset, a, b);
    WriteTwice(file, offset, a + b, c);
    WriteTwice(file, offset, a + b + c, d);
    WriteTwice(file, offset, a + b + c + d, e);
    WriteTwice(file, offset, a + b + c + d + e, m);
  }

  lemma LastSpillBlank(ms: seq<Message>, size: nat)
    requires AllWhole(ms)
    ensures Blank(Fit(LastSpill(ms), size))
  {
    if ms != [] { assert WholeMessage(ms[|ms| - 1]); }
  }

  lemma SliceBehind(front: seq<byte>, back: seq<byte>, n: nat)
    requires n <= |back|
    ensures (front + back)[|front|..|front| + n] == back[..n]
  {
  }

  lemma StoreOverBlank(front: seq<byte>, back: seq<byte>, seqNum: nat, timestamp: u64, m: Message)
    requires WholeMessage(m) && |back| >= 64 && Blank(back)
    ensures StoreFrame(front + back, |front|, seqNum, timestamp, m.bytes[0], m.bytes)
            == front + (Frame(seqNum, timestamp, m) + Fit(Spill(m.bytes), |back| - 64))
  {
    var header := FrameHeader(seqNum, m.bytes[0], timestamp);
    assert |m.bytes| <= 50;
    StoreIsOneWrite(front + back, |front|, seqNum, timestamp, m.bytes[0], m.bytes);
    hide WriteAt, Fit, FrameHeader, CalculateCrc32, ToLE, Blank, StoreFrame, WholeMessage, MessageLength;
    WriteBehind(front, back, 0, header + m.bytes);
    WriteFrame(back, header, m.bytes);
    var stored := WriteAt(back, 0, header + m.bytes);
    SliceBehind(front, stored, 60);
    WriteBehind(front, stored, 60, ToLE(4, CalculateCrc32(stored[..60])));
  }

  lemma AllWholeSnoc(ms: seq<Message>, m: Message)
    requires AllWhole(ms) && WholeMessage(m)
    ensures AllWhole(ms + [m])
  {
  }

  lemma FramesSnoc(ms: seq<Message>, m: Message, clock: Clock)
    requires AllWhole(ms) && WholeMessage(m) && AllWhole(ms + [m])
    ensures Frames(ms + [m], clock) == Frames(ms, clock) + Frame(|ms|, clock(|ms|), m)
  {
    var all := ms + [m];
    assert all[..|all| - 1] == ms;
  }

  /** Logging one more message turns the log of `ms` into the log of `ms + [m]`. */
  lemma LogStep(ms: seq<Message>, m: Message, clock: Clock, size: nat)
    requires AllWhole(ms) && WholeMessage(m) && 64 * |ms| + 64 <= size
    ensures AllWhole(ms + [m])
    ensures StoreFrame(LogFile(ms, clock, size), 64 * |ms|, |ms|, clock(|ms|), m.bytes[0], m.bytes)
            == LogFile(ms + [m], clock, size)
  {
    var n := |ms|;
    var front, back := Frames(ms, clock), Fit(LastSpill(ms), size - 64 * n);
    LastSpillBlank(ms, size - 64 * n);
    AllWholeSnoc(ms, m);
    FramesSnoc(ms, m, clock);
    StoreOverBlank(front, back, n, clock(n), m);
    hide StoreFrame, Frame, Frames, Fit, Blank, AllWhole, Spill, MessageLength;
    SeqAssoc(front, Frame(n, clock(n), m), Fit(Spill(m.bytes), size - 64 * n - 64));
  }
}
