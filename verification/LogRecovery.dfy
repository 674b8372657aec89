/** The log and its replay together: what was logged is what is recovered, after a clean
    stop, after a truncation and after a corrupted frame.
 */
module LogRecovery {
  import opened Bits
  import opened Bytes
  import opened Crc32c
  import opened Itch
  import opened Wal
  import opened Recovery

  // ----- one frame

  /** The checksum reads the first 60 bytes only. */
  lemma ChecksumOfBody(f: seq<byte>, g: seq<byte>)
    requires |f| >= 60 && |g| >= 60 && f[..60] == g[..60]
    ensures CalculateCrc32(f) == CalculateCrc32(g)
  {
    hide CalculateCrc32;
    CalculateIsBitSerial(f);
    CalculateIsBitSerial(g);
  }

  lemma FrameParts(seqNum: nat, timestamp: u64, m: Message)
    requires WholeMessage(m)
    ensures var f, body := Frame(seqNum, timestamp, m), FrameBody(seqNum, timestamp, m);
            && f[..60] == body
            && f[60..64] == ToLE(4, CalculateCrc32(body))
            && f[0] == MARKER
            && f[1] == LogType(m.bytes[0])
            && f[2..4] == ToLE(2, 1)
            && f[4..8] == ToLE(4, seqNum % 0x1_0000_0000)
            && f[8..16] == ToLE(8, timestamp)
            && f[16..60] == Fit(m.bytes, 44)
  {
    hide CalculateCrc32, ToLE, Fit, LogType, MessageLength;
    var h := FrameHeader(seqNum, m.bytes[0], timestamp);
    var f := Frame(seqNum, timestamp, m);
    assert f[..16] == h && f[16..60] == Fit(m.bytes, 44);
    assert f[0] == h[0] && f[1] == h[1] && f[2..4] == h[2..4] && f[4..8] == h[4..8] && f[8..16] == h[8..16];
    assert h[2..4] == ToLE(2, 1) && h[4..8] == ToLE(4, seqNum % 0x1_0000_0000) && h[8..16] == ToLE(8, timestamp);
  }

  /** A logged frame is marked and passes its checksum. */
  lemma FrameIsGood(seqNum: nat, timestamp: u64, m: Message)
    requires WholeMessage(m)
    ensures Good(Frame(seqNum, timestamp, m))
  {
    var f, body := Frame(seqNum, timestamp, m), FrameBody(seqNum, timestamp, m);
    FrameParts(seqNum, timestamp, m);
    hide Frame, FrameBody, CalculateCrc32, ToLE, WholeMessage;
    assert body[..60] == body;
    ChecksumOfBody(f, body);
    Pow256Literals();
    FromLEToLE(4, CalculateCrc32(body));
  }

  /** It carries its number without truncation while the number fits 32 bits. */
  lemma FrameNumber(seqNum: nat, timestamp: u64, m: Message)
    requires WholeMessage(m)
    ensures SeqNumOf(Frame(seqNum, timestamp, m)) == seqNum % 0x1_0000_0000
  {
    FrameParts(seqNum, timestamp, m);
    hide Frame, FrameBody, CalculateCrc32, ToLE, WholeMessage;
    Pow256Literals();
    FromLEToLE(4, seqNum % 0x1_0000_0000);
  }

  lemma DecodeOfOther(t: byte, raw: seq<byte>)
    requires !Supported(t)
    ensures Decode(t, raw) == []
  {
  }

  /** Decoding a logged frame gives what decoding the received message gave. */
  lemma FrameDecodes(seqNum: nat, timestamp: u64, m: Message)
    requires WholeMessage(m)
    ensures FrameOrders(Frame(seqNum, timestamp, m)) == DecodeMessage(m)
  {
    hide Frame, FrameBody, CalculateCrc32, ToLE, MessageLength, Decode;
    var f, t, n := Frame(seqNum, timestamp, m), m.bytes[0], |m.bytes|;
    FrameParts(seqNum, timestamp, m);
    SupportedLengths();
    if Supported(t) {
      assert Fit(m.bytes, 44)[..n] == m.bytes[..n];
      DecodeDependsOnMessage(t, Fit(m.bytes, 44), m.bytes);
    } else {
      DecodeOfOther(LogType(t), f[16..60]);
      DecodeOfOther(t, m.bytes);
    }
  }

  // ----- the file, frame by frame

  lemma {:induction false} FrameOfFrames(ms: seq<Message>, clock: Clock, k: nat)
    requires AllWhole(ms) && k < |ms|
    ensures FrameAt(Frames(ms, clock), k) == Frame(k, clock(k), ms[k])
  {
    hide Frame, WholeMessage;
    var n := |ms| - 1;
    var front := Frames(ms[..n], clock);
    if k < n {
      FrameOfFrames(ms[..n], clock, k);
      assert FrameAt(front + Frame(n, clock(n), ms[n]), k) == FrameAt(front, k);
    }
  }

  /** Frame `k` of the log is the frame of message `k`. */
  lemma FrameOfLog(ms: seq<Message>, clock: Clock, size: nat, k: nat)
    requires AllWhole(ms) && 64 * |ms| <= size && k < |ms|
    ensures FrameAt(LogFile(ms, clock, size), k) == Frame(k, clock(k), ms[k])
  {
    hide Frame, Frames, Fit, AllWhole, LastSpill;
    FrameOfFrames(ms, clock, k);
    var rest := Fit(LastSpill(ms), size - 64 * |ms|);
    assert FrameAt(Frames(ms, clock) + rest, k) == FrameAt(Frames(ms, clock), k);
  }

  lemma FitPrefix(s: seq<byte>, n: nat, k: nat)
    requires k <= n
    ensures Fit(s, n)[..k] == Fit(s, k)
  {
  }

  lemma LastSpillShort(ms: seq<Message>)
    requires AllWhole(ms)
    ensures |LastSpill(ms)| <= 2
  {
    if ms != [] { assert WholeMessage(ms[|ms| - 1]); }
  }

  /** The frame behind the last one is blank, but for what the last message spilled. */
  lemma FrameBehindLog(ms: seq<Message>, clock: Clock, size: nat)
    requires AllWhole(ms) && 64 * |ms| + 64 <= size
    ensures FrameAt(LogFile(ms, clock, size), |ms|) == Fit(LastSpill(ms), 64)
    ensures Blank(Fit(LastSpill(ms), 64))
  {
    hide Frames, AllWhole, Blank, LastSpill, Fit;
    LastSpillBlank(ms, 64);
    LastSpillShort(ms);
    var front, rest := Frames(ms, clock), Fit(LastSpill(ms), size - 64 * |ms|);
    SliceBehind(front, rest, 64);
    FitPrefix(LastSpill(ms), size - 64 * |ms|, 64);
  }

  /** All frames further on are still the zeros that the file was created with. */
  lemma RestOfFileIsZero(ms: seq<Message>, clock: Clock, size: nat, j: nat)
    requires AllWhole(ms) && |ms| < j && 64 * j + 64 <= size
    ensures FrameAt(LogFile(ms, clock, size), j) == Zeros(64)
  {
    hide Frames, AllWhole, LastSpill;
    LastSpillShort(ms);
    var file, f := LogFile(ms, clock, size), FrameAt(LogFile(ms, clock, size), j);
    forall i | 0 <= i < 64 ensures f[i] == 0 {
      assert f[i] == file[64 * j + i] == Fit(LastSpill(ms), size - 64 * |ms|)[64 * (j - |ms|) + i];
    }
  }

  // ----- what lies behind the log is never replayed

  lemma {:induction false} ZerosFeed(n: nat)
    ensures BitsOf(Zeros(n)) == seq(8 * n, _ => false)
  {
    if n > 0 {
      ZerosFeed(n - 1);
      assert Zeros(n)[1..] == Zeros(n - 1);
      assert Digits(8, 0) == seq(8, _ => false) by { ZeroDigits(8); }
      assert DigitsOf(8, Zeros(n)) == Digits(8, 0) + DigitsOf(8, Zeros(n - 1));
    }
  }

  lemma {:induction false} FeedZeros(bits: seq<bool>)
    requires forall k :: 0 <= k < |bits| ==> !bits[k]
    ensures FeedAll(0, bits) == 0
    decreases |bits|
  {
    if bits != [] { FeedZeros(bits[1..]); }
  }

  lemma ZeroFrameIntact()
    ensures Intact(Zeros(64))
  {
    hide CalculateCrc32;
    ZerosFeed(64);
    FeedZeros(BitsOf(Zeros(64)));
    IntactIsZeroRegister(Zeros(64));
  }

  /** An intact frame that is zero past its first two bytes is all zero. */
  lemma BlankIntactIsZero(f: seq<byte>)
    requires |f| == 64 && Blank(f) && Intact(f)
    ensures f == Zeros(64)
  {
    hide CalculateCrc32, BitsOf, LoadU32;
    var zero := Zeros(64);
    ZeroFrameIntact();
    assert f == f[..2] + f[2..] && zero == zero[..2] + zero[2..];
    assert f[2..] == zero[2..];
    BitsOfSplit(f[..2], f[2..]);
    BitsOfSplit(zero[..2], zero[2..]);
    assert DifferOnlyWithin(f, zero, 0, 32);
    BurstDetected(f, zero, 0);
  }

  lemma BlankIsNotGood(f: seq<byte>)
    requires |f| == 64 && Blank(f)
    ensures !Good(f)
  {
    hide CalculateCrc32, LoadU32;
    if Intact(f) { BlankIntactIsZero(f); }
  }

  // ----- recovery of a clean log

  /** The file begins with the frames of the log of `ms`. */
  ghost predicate Leads(file: seq<byte>, ms: seq<Message>, clock: Clock) {
    && AllWhole(ms)
    && 64 * |ms| <= |file|
    && forall k :: 0 <= k < |ms| ==> FrameAt(file, k) == Frame(k, clock(k), ms[k])
  }

  /** And the frame after them is not replayed. */
  ghost predicate HoldsLog(file: seq<byte>, ms: seq<Message>, clock: Clock) {
    Leads(file, ms, clock) && 64 * |ms| + 64 <= |file| && !Good(FrameAt(file, |ms|))
  }

  lemma LeadsPrefix(file: seq<byte>, ms: seq<Message>, clock: Clock, r: nat)
    requires Leads(file, ms, clock) && r <= |ms|
    ensures Leads(file, ms[..r], clock)
  {
    hide FrameAt, Frame, WholeMessage;
  }

  lemma {:induction false} LeadingOrders(file: seq<byte>, ms: seq<Message>, clock: Clock)
    requires Leads(file, ms, clock)
    ensures OrdersIn(file, |ms|) == DecodeAll(ms)
    decreases |ms|
  {
    hide FrameOrders, FrameAt, Frame, DecodeMessage, WholeMessage;
    if ms != [] {
      var n := |ms| - 1;
      LeadingOrders(file, ms[..n], clock);
      FrameDecodes(n, clock(n), ms[n]);
    }
  }

  /** The report on `n` frames numbered from 0. */
  function FullReport(n: nat): Report {
    Report(n, if n == 0 then 0 else (n - 1) % 0x1_0000_0000, false)
  }

  lemma LeadingReport(file: seq<byte>, ms: seq<Message>, clock: Clock)
    requires Leads(file, ms, clock)
    ensures ReportAfter(file, |ms|) == FullReport(|ms|)
  {
    hide FrameAt, Frame, WholeMessage, SeqNumOf;
    if ms != [] {
      var last := |ms| - 1;
      FrameNumber(last, clock(last), ms[last]);
    }
  }

  /** A file that holds the first frames of the log of `ms` and then a frame that is not
      good is replayed to exactly those frames. */
  lemma LeadingFramesReplay(file: seq<byte>, ms: seq<Message>, clock: Clock)
    requires HoldsLog(file, ms, clock)
    ensures StopsAt(file, |ms|) && OrdersIn(file, |ms|) == DecodeAll(ms)
    ensures ReportAfter(file, |ms|) == FullReport(|ms|)
  {
    hide FrameOrders, FrameAt, Frame, DecodeAll, WholeMessage, Good, OrdersIn, SeqNumOf, ReportAfter, FullReport;
    LeadingOrders(file, ms, clock);
    LeadingReport(file, ms, clock);
    forall k | 0 <= k < |ms| ensures Good(FrameAt(file, k)) {
      FrameIsGood(k, clock(k), ms[k]);
    }
  }

  /** The last message is 50 bytes long and the first byte it spilled is the marker. */
  predicate LooksTorn(ms: seq<Message>) {
    ms != [] && var m := ms[|ms| - 1].bytes; |m| == 50 && m[48] == MARKER
  }

  /** Only a 50-byte message reaches past its frame. */
  lemma SpilledMarker(m: Message)
    requires WholeMessage(m)
    ensures Fit(Spill(m.bytes), 64)[0] == MARKER <==> |m.bytes| == 50 && m.bytes[48] == MARKER
  {
    assert |m.bytes| > 48 ==> |m.bytes| == 50;
  }

  /** The replay of a log that is not full processes exactly the messages written,
      whatever their lengths. It reports a torn write only if the last message makes the
      frame behind it look like one. */
  lemma CleanLogReplays(ms: seq<Message>, clock: Clock, size: nat)
    requires AllWhole(ms) && 64 * |ms| + 64 <= size
    ensures var file := LogFile(ms, clock, size);
            && HoldsLog(file, ms, clock)
            && StopsAt(file, |ms|)
            && OrdersIn(file, |ms|) == DecodeAll(ms)
            && ReportAfter(file, |ms|) == FullReport(|ms|)
            && (Marked(FrameAt(file, |ms|)) <==> LooksTorn(ms))
  {
    hide FrameOrders, Frame, DecodeAll, Good, OrdersIn, LogFile, StopsAt, FrameAt, Blank, MessageLength, ReportAfter, FullReport;
    var file := LogFile(ms, clock, size);
    FrameBehindLog(ms, clock, size);
    BlankIsNotGood(FrameAt(file, |ms|));
    forall k | 0 <= k < |ms| ensures FrameAt(file, k) == Frame(k, clock(k), ms[k]) {
      FrameOfLog(ms, clock, size, k);
    }
    LeadingFramesReplay(file, ms, clock);
    if ms != [] { SpilledMarker(ms[|ms| - 1]); }
  }

  /** One 'I' message that ends in two marker bytes: replayed in full, yet reported torn. */
  lemma FalseTornFlag(clock: Clock)
    ensures var m := Message([0x49] + Zeros(47) + [MARKER, MARKER]);
            && AllWhole([m])
            && StopsAt(LogFile([m], clock, 128), 1)
            && Marked(FrameAt(LogFile([m], clock, 128), 1))
  {
    hide LogFile, FrameAt, StopsAt;
    CleanLogReplays([Message([0x49] + Zeros(47) + [MARKER, MARKER])], clock, 128);
  }

  /** A frame byte by byte: marker, type or '-', channel 1, number, time stamp, payload and
      checksum, numbers in little-endian order. */
  lemma FrameLayout(k: nat, now: u64, m: Message)
    requires WholeMessage(m)
    ensures var f, t := Frame(k, now, m), m.bytes[0];
            && f[0] == 0xAA
            && f[1] == (if t == 0x41 || t == 0x45 || t == 0x58 then t else 0x2D)
            && FromLE(f[2..4]) == 1
            && FromLE(f[4..8]) == k % 0x1_0000_0000
            && FromLE(f[8..16]) == now
            && f[16..60] == Fit(m.bytes, 44)
            && FromLE(f[60..64]) == CalculateCrc32(f)
  {
    hide Frame, Fit, WholeMessage, ToLE, FromLE, CalculateCrc32;
    FrameParts(k, now, m);
    FrameIsGood(k, now, m);
    Pow256Literals();
    FromLEToLE(2, 1);
    FromLEToLE(4, k % 0x1_0000_0000);
    FromLEToLE(8, now);
  }

  /** The log file of 2^30 bytes takes 2^24 messages; frame `k` of it carries number `k`
      untruncated, the first 44 bytes of message `k` and a matching checksum. */
  lemma LoggedFrames(ms: seq<Message>, clock: Clock, k: nat)
    requires AllWhole(ms) && |ms| <= 0x100_0000 && k < |ms|
    ensures var f, t := FrameAt(LogFile(ms, clock, 0x4000_0000), k), ms[k].bytes[0];
            && Good(f)
            && f[0] == 0xAA
            && f[1] == (if t == 0x41 || t == 0x45 || t == 0x58 then t else 0x2D)
            && FromLE(f[2..4]) == 1
            && FromLE(f[4..8]) == k
            && FromLE(f[8..16]) == clock(k)
            && f[16..60] == Fit(ms[k].bytes, 44)
            && FromLE(f[60..64]) == CalculateCrc32(f)
  {
    hide Frame, FrameAt, Good, LogFile, Fit, MessageLength, FromLE, CalculateCrc32;
    FrameOfLog(ms, clock, 0x4000_0000, k);
    FrameIsGood(k, clock(k), ms[k]);
    FrameLayout(k, clock(k), ms[k]);
  }

  // ----- recovery of a damaged log

  lemma SameFrame(f: seq<byte>, g: seq<byte>, k: nat, j: nat)
    requires j < k && 64 * k <= |f| && 64 * k <= |g| && f[..64 * k] == g[..64 * k]
    ensures FrameAt(f, j) == FrameAt(g, j)
  {
    assert FrameAt(f, j) == FrameAt(f[..64 * k], j) && FrameAt(g, j) == FrameAt(g[..64 * k], j);
  }

  /** The first `k` frames of the log of `ms`, wherever the file goes on differently. */
  lemma PrefixFrames(ms: seq<Message>, clock: Clock, size: nat, k: nat, file: seq<byte>)
    requires AllWhole(ms) && 64 * |ms| <= size && k <= |ms| && 64 * k + 64 <= |file|
    requires file[..64 * k] == LogFile(ms, clock, size)[..64 * k]
    requires !Good(FrameAt(file, k))
    ensures AllWhole(ms[..k])
    ensures HoldsLog(file, ms[..k], clock)
    ensures StopsAt(file, k) && OrdersIn(file, k) == DecodeAll(ms[..k])
    ensures ReportAfter(file, k) == FullReport(k)
  {
    hide Frame, FrameAt, Good, LogFile, OrdersIn, DecodeAll, WholeMessage, ReportAfter, FullReport, StopsAt;
    forall j | 0 <= j < k ensures FrameAt(file, j) == Frame(j, clock(j), ms[..k][j]) {
      FrameOfLog(ms, clock, size, j);
      SameFrame(file, LogFile(ms, clock, size), k, j);
    }
    LeadingFramesReplay(file, ms[..k], clock);
  }

  /** A log cut off after `k` frames is replayed to the first `k` messages, without a torn
      write being reported. */
  lemma TruncatedLogReplays(ms: seq<Message>, clock: Clock, size: nat, k: nat)
    requires AllWhole(ms) && 64 * |ms| <= size && k <= |ms| && 64 * k + 64 <= size
    ensures AllWhole(ms[..k])
    ensures var file := LogFile(ms, clock, size)[..64 * k] + Zeros(size - 64 * k);
            && HoldsLog(file, ms[..k], clock)
            && StopsAt(file, k)
            && OrdersIn(file, k) == DecodeAll(ms[..k])
            && ReportAfter(file, k) == FullReport(k)
            && !Marked(FrameAt(file, k))
  {
    hide LogFile, OrdersIn, DecodeAll, WholeMessage, Good, StopsAt, HoldsLog, ReportAfter, FullReport;
    var file := LogFile(ms, clock, size)[..64 * k] + Zeros(size - 64 * k);
    assert FrameAt(file, k) == Zeros(64);
    BlankIsNotGood(Zeros(64));
    assert file[..64 * k] == LogFile(ms, clock, size)[..64 * k];
    PrefixFrames(ms, clock, size, k, file);
  }

  /** If frame `k` of a log is changed within 32 consecutive bits, at any alignment, exactly
      the frames before it are replayed, whatever follows; a torn write is reported exactly
      when the change left the marker byte alone. */
  lemma CorruptedFrameStopsReplay(ms: seq<Message>, clock: Clock, size: nat, k: nat, file: seq<byte>, i: nat)
    requires AllWhole(ms) && 64 * |ms| <= size == |file| && k < |ms|
    requires file[..64 * k] == LogFile(ms, clock, size)[..64 * k]
    requires FrameAt(file, k) != FrameAt(LogFile(ms, clock, size), k)
    requires DifferOnlyWithin(FrameAt(file, k), FrameAt(LogFile(ms, clock, size), k), i, 32)
    ensures AllWhole(ms[..k])
    ensures HoldsLog(file, ms[..k], clock)
    ensures StopsAt(file, k) && OrdersIn(file, k) == DecodeAll(ms[..k])
    ensures ReportAfter(file, k) == FullReport(k)
    ensures Marked(FrameAt(file, k)) <==> FrameAt(file, k)[0] == FrameAt(LogFile(ms, clock, size), k)[0]
  {
    hide Frame, FrameAt, LogFile, OrdersIn, DecodeAll, WholeMessage, StopsAt, HoldsLog, CalculateCrc32, LoadU32, DifferOnlyWithin, ReportAfter, FullReport;
    var f, g := FrameAt(LogFile(ms, clock, size), k), FrameAt(file, k);
    FrameOfLog(ms, clock, size, k);
    FrameIsGood(k, clock(k), ms[k]);
    if Intact(g) {
      BurstDetected(g, f, i);
    }
    PrefixFrames(ms, clock, size, k, file);
  }
}
