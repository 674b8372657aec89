/** `RecoveryEngine`: replays the frames of a log, up to the first one that is not marked
    valid or fails its checksum, onto a book.
 */
module Recovery {
  import opened Bits
  import opened Bytes
  import opened Crc32c
  import opened Orders
  import opened Itch
  import opened ListBook
  import opened BookRuns
  import opened Wal
  import opened LimitOrderBook

  function FrameAt(file: seq<byte>, k: nat): (f: seq<byte>)
    requires 64 * k + 64 <= |file|
    ensures |f| == 64
  {
    file[64 * k..64 * k + 64]
  }

  predicate Marked(f: seq<byte>)
    requires |f| == 64
  {
    f[0] == MARKER
  }

  predicate Intact(f: seq<byte>)
    requires |f| == 64
  {
    CalculateCrc32(f) == LoadU32(f, 60)
  }

  predicate Good(f: seq<byte>)
    requires |f| == 64
  {
    Marked(f) && Intact(f)
  }

  /** The replay of `file` ends at frame `n`, which lies in the file. */
  predicate StopsAt(file: seq<byte>, n: nat) {
    && 64 * n + 64 <= |file|
    && !Good(FrameAt(file, n))
    && forall k :: 0 <= k < n ==> Good(FrameAt(file, k))
  }

  /** What one frame contributes: its type byte selects the decoder of its payload. */
  function FrameOrders(f: seq<byte>): seq<Order>
    requires |f| == 64
  {
    SupportedLengths();
    Decode(f[1], f[16..60])
  }

  /** The orders of the first `n` frames. */
  function OrdersIn(file: seq<byte>, n: nat): seq<Order>
    requires 64 * n <= |file|
  {
    if n == 0 then [] else OrdersIn(file, n - 1) + FrameOrders(FrameAt(file, n - 1))
  }

  function SeqNumOf(f: seq<byte>): u32
    requires |f| == 64
  {
    LoadU32(f, 4)
  }

  datatype Report = Report(recordsProcessed: nat, lastValidSeq: u32, tornWriteDetected: bool)

  /** The report after `n` frames and before the next one. */
  function ReportAfter(file: seq<byte>, n: nat): Report
    requires 64 * n <= |file|
  {
    Report(n, if n == 0 then 0 else SeqNumOf(FrameAt(file, n - 1)), false)
  }

  /** Applying one more frame to a run that has not failed. */
  lemma OneMoreFrame(b: Book, file: seq<byte>, k: nat)
    requires WellFormed(b) && 64 * k + 64 <= |file| && Dispatch(b, OrdersIn(file, k)).ok
    ensures WellFormed(Dispatch(b, OrdersIn(file, k)).book)
    ensures Dispatch(b, OrdersIn(file, k + 1)) ==
            Dispatch(Dispatch(b, OrdersIn(file, k)).book, FrameOrders(FrameAt(file, k)))
  {
    DispatchSplit(b, OrdersIn(file, k), FrameOrders(FrameAt(file, k)));
  }

  lemma FailsOnce(b: Book, file: seq<byte>, k: nat, n: nat)
    requires WellFormed(b) && k <= n && 64 * n <= |file|
    requires !Dispatch(b, OrdersIn(file, k)).ok
    ensures Dispatch(b, OrdersIn(file, n)) == Dispatch(b, OrdersIn(file, k))
  {
    if k < n {
      FailsOnce(b, file, k, n - 1);
      DispatchSplit(b, OrdersIn(file, n - 1), FrameOrders(FrameAt(file, n - 1)));
    }
  }

  lemma DispatchOne(b: Book, orders: seq<Order>)
    requires WellFormed(b) && |orders| <= 1
    ensures Dispatch(b, orders) == if orders == [] then Outcome(b, true) else Step(b, orders[0])
  {
    if orders != [] {
      StepKeeps(b, orders[0]);
      assert orders[1..] == [];
    }
  }

  lemma ReplayBegins(book: LimitOrderBook, file: seq<byte>)
    requires book.Valid()
    ensures WellFormed(book.book)
    ensures Dispatch(book.book, OrdersIn(file, 0)) == Outcome(book.book, true)
  {
  }

  /** Applies the order of one frame, if it carries one. */
  method ApplyFrame(book: LimitOrderBook, frame: seq<byte>) returns (ok: bool)
    requires book.Valid() && |frame| == 64
    modifies book.Repr()
    ensures book.Valid() && Outcome(book.book, ok) == Dispatch(old(book.book), FrameOrders(frame))
  {
    hide LimitOrderBook.Valid, WellFormed, Step, Dispatch, MessageLength, ParseAddOrder, ParseExecutedOrder, ParseCancelOrder, ExtractHeader;
    SupportedLengths();
    ReplayBegins(book, []);
    DispatchOne(book.book, FrameOrders(frame));
    var payload, t := frame[16..60], frame[1];
    var header := ExtractHeader(payload);
    if t == TYPE_ADD {
      ok := book.Apply(ParseAddOrder(payload, header));
    } else if t == TYPE_EXECUTE {
      ok := book.Apply(ParseExecutedOrder(payload, header));
    } else if t == TYPE_CANCEL {
      ok := book.Apply(ParseCancelOrder(payload, header));
    } else {
      ok := true;
    }
  }

  /** What a replay that stops at frame `n` leaves: the book that the orders of the frames
      before `n` make, and a report of how far it got. The outcome is not ok when an
      execution threw, which ends the replay in the middle of a frame. */
  ghost predicate Replayed(b: Book, file: seq<byte>, n: nat, outcome: Outcome, report: Report)
    requires WellFormed(b) && StopsAt(file, n)
  {
    && outcome == Dispatch(b, OrdersIn(file, n))
    && if outcome.ok then
         report == ReportAfter(file, n).(tornWriteDetected := Marked(FrameAt(file, n)))
       else
         var k := report.recordsProcessed;
         && k < n && report == ReportAfter(file, k)
         && Dispatch(b, OrdersIn(file, k)).ok
         && !Dispatch(b, OrdersIn(file, k + 1)).ok
  }

  lemma StopsInFile(file: seq<byte>, n: nat)
    requires StopsAt(file, n)
    ensures 64 * n + 64 <= |file|
  {
  }

  lemma StopsHere(b: Book, file: seq<byte>, n: nat, k: nat)
    requires WellFormed(b) && StopsAt(file, n) && k <= n && !Good(FrameAt(file, k))
    requires Dispatch(b, OrdersIn(file, k)).ok
    ensures Replayed(b, file, n, Dispatch(b, OrdersIn(file, k)),
                     ReportAfter(file, k).(tornWriteDetected := Marked(FrameAt(file, k))))
  {
  }

  lemma GoesOn(file: seq<byte>, n: nat, k: nat)
    requires StopsAt(file, n) && k <= n && Good(FrameAt(file, k))
    ensures k < n
  {
  }

  lemma FailsAt(b: Book, file: seq<byte>, n: nat, k: nat)
    requires WellFormed(b) && StopsAt(file, n) && k < n
    requires Dispatch(b, OrdersIn(file, k)).ok && !Dispatch(b, OrdersIn(file, k + 1)).ok
    ensures Replayed(b, file, n, Dispatch(b, OrdersIn(file, k + 1)), ReportAfter(file, k))
  {
    hide WellFormed, Dispatch, OrdersIn, FrameOrders, StopsAt;
    StopsInFile(file, n);
    FailsOnce(b, file, k + 1, n);
  }

  /** `run_recovery` on a read-only file in which the replay stops. */
  method RunRecovery(book: LimitOrderBook, file: seq<byte>, ghost n: nat) returns (ok: bool, report: Report)
    requires book.Valid() && StopsAt(file, n)
    modifies book.Repr()
    ensures book.Valid()
    ensures Replayed(old(book.book), file, n, Outcome(book.book, ok), report)
  {
    hide LimitOrderBook.Valid, WellFormed, FrameOrders, OrdersIn, Dispatch, CalculateCrc32, LoadU32, StopsAt, Replayed;
    ghost var b := book.book;
    ReplayBegins(book, file);
    StopsInFile(file, n);
    var k := 0;
    ok, report := true, Report(0, 0, false);
    while file[64 * k] == MARKER
      invariant 0 <= k <= n
      invariant book.Valid() && ok && report == ReportAfter(file, k)
      invariant Outcome(book.book, true) == Dispatch(b, OrdersIn(file, k))
      decreases n - k
    {
      var frame := file[64 * k..64 * k + 64];
      if CalculateCrc32(frame) != LoadU32(frame, 60) {
        report := report.(tornWriteDetected := true);
        break;
      }
      GoesOn(file, n, k);
      OneMoreFrame(b, file, k);
      ok := ApplyFrame(book, frame);
      if !ok {
        FailsAt(b, file, n, k);
        return;
      }
      report := report.(recordsProcessed := report.recordsProcessed + 1, lastValidSeq := SeqNumOf(frame));
      k := k + 1;
    }
    StopsHere(b, file, n, k);
  }
}
