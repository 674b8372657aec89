/** The system put together: packets come off the ring, are parsed and logged, the decoded
    orders reach the live book through the queue, and after a crash the log rebuilds that
    book.
 */
module Pipeline {
  import opened Bits
  import opened Bytes
  import opened Crc32c
  import opened Orders
  import opened Itch
  import opened ListBook
  import opened BookRuns
  import opened Wal
  import opened Recovery
  import opened LogRecovery
  import opened LimitOrderBook
  import Parser = ItchParser
  import Q = SpscQueue
  import RxRing
  import SimpleBook
  import Bitset

  // ----- the consumer thread

  lemma DispatchNext(b: Book, orders: seq<Order>, i: nat)
    requires WellFormed(b) && i < |orders| && Dispatch(b, orders[..i]).ok
    ensures WellFormed(Dispatch(b, orders[..i]).book)
    ensures Dispatch(b, orders[..i + 1]) == Step(Dispatch(b, orders[..i]).book, orders[i])
  {
    assert orders[..i + 1] == orders[..i] + [orders[i]];
    hide WellFormed, Step, Dispatch;
    DispatchSplit(b, orders[..i], [orders[i]]);
    DispatchOne(Dispatch(b, orders[..i]).book, [orders[i]]);
  }

  lemma DispatchStopped(b: Book, orders: seq<Order>, i: nat)
    requires WellFormed(b) && i <= |orders| && !Dispatch(b, orders[..i]).ok
    ensures Dispatch(b, orders) == Dispatch(b, orders[..i])
  {
    hide WellFormed, Step, Dispatch;
    assert orders == orders[..i] + orders[i..];
    DispatchSplit(b, orders[..i], orders[i..]);
  }

  /** The consumer loop: every popped order goes to the book, until one throws. */
  method Consume(book: LimitOrderBook, orders: seq<Order>) returns (ok: bool)
    requires book.Valid()
    modifies book.Repr()
    ensures book.Valid() && Outcome(book.book, ok) == Dispatch(old(book.book), orders)
  {
    hide LimitOrderBook.Valid, WellFormed, Step;
    ghost var b := book.book;
    ReplayBegins(book, []);
    for i := 0 to |orders|
      invariant book.Valid() && Dispatch(b, orders[..i]) == Outcome(book.book, true)
    {
      ReplayBegins(book, []);
      DispatchNext(b, orders, i);
      ok := book.Apply(orders[i]);
      if !ok {
        DispatchStopped(b, orders, i + 1);
        return;
      }
    }
    assert orders[..|orders|] == orders;
    ok := true;
  }

  /** What a new book of `maxOrders` nodes becomes. */
  ghost function FromEmpty(maxOrders: nat, orders: seq<Order>): Outcome {
    InitOk(maxOrders);
    Dispatch(Init(maxOrders), orders)
  }

  /** The consumer thread on a new book. */
  method RunLive(orders: seq<Order>, maxOrders: nat) returns (book: LimitOrderBook, ok: bool)
    requires 0 < maxOrders <= ORDER_MAP_SIZE
    ensures fresh(book.Repr()) && book.Valid()
    ensures Outcome(book.book, ok) == FromEmpty(maxOrders, orders)
  {
    hide LimitOrderBook.Valid, Dispatch, WellFormed, Init;
    book := new LimitOrderBook(maxOrders);
    InitOk(maxOrders);
    ok := Consume(book, orders);
  }

  ghost predicate BestBid(s: SimpleBook.Simple, bid: u64) {
    if s.bids == map[] then bid == 0xFFFF_FFFF_FFFF_FFFF else Bitset.IsGreatest(s.bids.Keys, bid)
  }

  ghost predicate BestOffer(s: SimpleBook.Simple, offer: u64) {
    if s.asks == map[] then offer == 0xFFFF_FFFF_FFFF_FFFF else Bitset.IsLeast(s.asks.Keys, offer)
  }

  /** With fresh ids the fast book quotes the best prices of the simple book, and refuses
      an execution where the simple book does. */
  method QuoteLive(orders: seq<Order>, maxOrders: nat) returns (ok: bool, bid: u64, offer: u64)
    requires 0 < maxOrders <= ORDER_MAP_SIZE
    requires SimpleBook.FreshIds(SimpleBook.SimpleInit(maxOrders), orders)
    ensures var s := SimpleBook.SimpleDispatch(SimpleBook.SimpleInit(maxOrders), orders);
            ok == s.ok && BestBid(s.book, bid) && BestOffer(s.book, offer)
  {
    hide LimitOrderBook.Valid, Dispatch, WellFormed, Init, Ticks, SimpleBook.SimpleDispatch, SimpleBook.FreshIds, SimpleBook.Abs, SimpleBook.SimpleInit;
    var book;
    book, ok := RunLive(orders, maxOrders);
    SimpleBook.DispatchFromEmpty(maxOrders, orders);
    bid, offer := book.GetBestBid(), book.GetBestOffer();
  }

  // ----- a restart

  ghost predicate ReplayedFromEmpty(maxOrders: nat, file: seq<byte>, n: nat, outcome: Outcome, report: Report)
    requires StopsAt(file, n)
  {
    InitOk(maxOrders);
    Replayed(Init(maxOrders), file, n, outcome, report)
  }

  /** Any file in which the replay stops, replayed onto a new book. */
  method Recover(file: seq<byte>, ghost n: nat, maxOrders: nat)
    returns (book: LimitOrderBook, ok: bool, report: Report)
    requires 0 < maxOrders <= ORDER_MAP_SIZE && StopsAt(file, n)
    ensures fresh(book.Repr()) && book.Valid()
    ensures ReplayedFromEmpty(maxOrders, file, n, Outcome(book.book, ok), report)
  {
    hide LimitOrderBook.Valid, WellFormed, Init, Replayed, StopsAt;
    book := new LimitOrderBook(maxOrders);
    InitOk(maxOrders);
    ok, report := RunRecovery(book, file, n);
  }

  /** The report on the messages `ms`: all of them counted if no order threw, and otherwise
      those before the message whose order threw. */
  ghost predicate ReportOf(maxOrders: nat, ms: seq<Message>, ok: bool, torn: bool, report: Report)
    requires AllWhole(ms)
  {
    if ok then
      report == FullReport(|ms|).(tornWriteDetected := torn)
    else
      var r := report.recordsProcessed;
      && r < |ms| && report == FullReport(r)
      && FromEmpty(maxOrders, DecodeAll(ms[..r])).ok
      && !FromEmpty(maxOrders, DecodeAll(ms[..r + 1])).ok
  }

  lemma ReplayOfLog(maxOrders: nat, file: seq<byte>, ms: seq<Message>, clock: Clock, outcome: Outcome, report: Report)
    requires HoldsLog(file, ms, clock)
    requires StopsAt(file, |ms|) && ReplayedFromEmpty(maxOrders, file, |ms|, outcome, report)
    ensures outcome == FromEmpty(maxOrders, DecodeAll(ms))
    ensures ReportOf(maxOrders, ms, outcome.ok, Marked(FrameAt(file, |ms|)), report)
  {
    hide Leads, Good, FrameAt, DecodeAll, OrdersIn, StopsAt, ReportAfter, FullReport, Dispatch, WellFormed, Init;
    LeadingFramesReplay(file, ms, clock);
    if !outcome.ok {
      var r := report.recordsProcessed;
      LeadsPrefix(file, ms, clock, r);
      LeadsPrefix(file, ms, clock, r + 1);
      LeadingReport(file, ms[..r], clock);
      LeadingOrders(file, ms[..r], clock);
      LeadingOrders(file, ms[..r + 1], clock);
    }
  }

  /** A file that begins with the log of `ms`, replayed onto a new book. */
  method RecoverLog(file: seq<byte>, ghost ms: seq<Message>, ghost clock: Clock, maxOrders: nat)
    returns (book: LimitOrderBook, ok: bool, report: Report)
    requires 0 < maxOrders <= ORDER_MAP_SIZE && HoldsLog(file, ms, clock)
    ensures fresh(book.Repr()) && book.Valid()
    ensures Outcome(book.book, ok) == FromEmpty(maxOrders, DecodeAll(ms))
    ensures ReportOf(maxOrders, ms, ok, Marked(FrameAt(file, |ms|)), report)
  {
    hide LimitOrderBook.Valid, Leads, Good, FrameAt, DecodeAll, StopsAt, ReplayedFromEmpty, FromEmpty, ReportOf, OrdersIn;
    LeadingFramesReplay(file, ms, clock);
    book, ok, report := Recover(file, |ms|, maxOrders);
    ReplayOfLog(maxOrders, file, ms, clock, Outcome(book.book, ok), report);
  }

  /** A log changed within 32 consecutive bits of frame `k`, and in any way behind it: the
      book is the live book after the first `k` messages, and the report gives their count,
      the last number, and a torn write exactly when the marker byte of frame `k` survived. */
  method RecoverDamaged(file: seq<byte>, ghost ms: seq<Message>, ghost clock: Clock, ghost k: nat, ghost i: nat,
                        maxOrders: nat)
    returns (book: LimitOrderBook, ok: bool, report: Report)
    requires 0 < maxOrders <= ORDER_MAP_SIZE
    requires AllWhole(ms) && 64 * |ms| <= |file| && k < |ms|
    requires file[..64 * k] == LogFile(ms, clock, |file|)[..64 * k]
    requires FrameAt(file, k) != FrameAt(LogFile(ms, clock, |file|), k)
    requires DifferOnlyWithin(FrameAt(file, k), FrameAt(LogFile(ms, clock, |file|), k), i, 32)
    ensures book.Valid() && AllWhole(ms[..k])
    ensures Outcome(book.book, ok) == FromEmpty(maxOrders, DecodeAll(ms[..k]))
    ensures var intact := LogFile(ms, clock, |file|);
            ReportOf(maxOrders, ms[..k], ok, FrameAt(file, k)[0] == FrameAt(intact, k)[0], report)
  {
    hide LimitOrderBook.Valid, HoldsLog, FrameAt, DecodeAll, StopsAt, LogFile, DifferOnlyWithin, FromEmpty, ReportOf, OrdersIn, AllWhole;
    CorruptedFrameStopsReplay(ms, clock, |file|, k, file, i);
    book, ok, report := RecoverLog(file, ms[..k], clock, maxOrders);
  }

  /** A log cut off after `k` frames: the book is the live book after the first `k` messages,
      and nothing is reported torn. */
  method RecoverCutOff(ghost ms: seq<Message>, ghost clock: Clock, ghost k: nat, file: seq<byte>, maxOrders: nat)
    returns (book: LimitOrderBook, ok: bool, report: Report)
    requires 0 < maxOrders <= ORDER_MAP_SIZE
    requires AllWhole(ms) && 64 * |ms| <= |file| && k <= |ms| && 64 * k + 64 <= |file|
    requires file == LogFile(ms, clock, |file|)[..64 * k] + Zeros(|file| - 64 * k)
    ensures book.Valid() && AllWhole(ms[..k])
    ensures Outcome(book.book, ok) == FromEmpty(maxOrders, DecodeAll(ms[..k]))
    ensures ReportOf(maxOrders, ms[..k], ok, false, report)
  {
    hide LimitOrderBook.Valid, HoldsLog, FrameAt, DecodeAll, StopsAt, LogFile, FromEmpty, ReportOf, OrdersIn, AllWhole;
    TruncatedLogReplays(ms, clock, |file|, k);
    book, ok, report := RecoverLog(file, ms[..k], clock, maxOrders);
  }

  // ----- the producer thread

  predicate AllCuttable(blocks: seq<Message>) {
    forall i :: 0 <= i < |blocks| ==> Cuttable(blocks[i].bytes)
  }

  /** All messages of a stream of blocks. */
  function CutAll(blocks: seq<Message>): seq<Message> {
    if blocks == [] then [] else CutAll(blocks[..|blocks| - 1]) + Cut(blocks[|blocks| - 1].bytes)
  }

  lemma {:induction false} CutAllPrefix(blocks: seq<Message>, more: seq<Message>)
    requires blocks <= more
    ensures CutAll(blocks) <= CutAll(more)
    decreases |more|
  {
    hide Cut;
    if blocks != more {
      CutAllPrefix(blocks, more[..|more| - 1]);
    }
  }

  method ParseAll(blocks: seq<Message>, clock: Clock) returns (parser: Parser.ItchParser)
    requires AllCuttable(blocks)
    ensures parser.Valid() && parser.seen == CutAll(blocks) && parser.clock == clock
  {
    hide Parser.ItchParser.Valid, Cut, Cuttable;
    parser := new Parser.ItchParser(clock);
    for i := 0 to |blocks|
      invariant fresh(parser) && fresh(parser.logger) && fresh(parser.logger.file) && parser.clock == clock
      invariant parser.Valid() && parser.seen == CutAll(blocks[..i])
    {
      assert blocks[..i + 1][..i] == blocks[..i];
      parser.ParseBlock(blocks[i].bytes);
    }
    assert blocks[..|blocks|] == blocks;
  }

  lemma LogOfAll(parser: Parser.ItchParser)
    requires parser.Valid() && |parser.seen| < MAX_FRAMES
    ensures AllWhole(parser.seen)
    ensures parser.logger.file[..] == LogFile(parser.seen, parser.clock, FILE_SIZE)
    ensures parser.offered == DecodeAll(parser.seen)
  {
  }

  // ----- live and recovered

  /** The `push` calls of a queue schedule are those of a parser that has seen `ms`. */
  ghost predicate Offers(schedule: seq<Q.Action<Order>>, ms: seq<Message>) {
    AllWhole(ms) && Q.Offered(schedule) == DecodeAll(ms)
  }

  /** A schedule of the queue in which every `push` returned true and that left it empty. */
  predicate Delivers(data: seq<Order>, schedule: seq<Q.Action<Order>>) {
    && |data| > 0
    && Q.Run(Q.Init(data), schedule, |data|).Some?
    && Q.NoPushFails(Q.Init(data), schedule, |data|)
    && Q.Drained(Q.Run(Q.Init(data), schedule, |data|).value)
  }

  /** Under every such schedule, the book that the consumer makes of what it popped is the
      book replayed from the log of the messages, and so are the errors they meet. */
  lemma LiveEqualsRecovered(ms: seq<Message>, clock: Clock, size: nat, b: Book,
                            data: seq<Order>, schedule: seq<Q.Action<Order>>, k: nat)
    requires WellFormed(b) && 64 * |ms| + 64 <= size
    requires |data| == Pow2(k) && Delivers(data, schedule) && Offers(schedule, ms)
    ensures Q.Run(Q.Init(data), schedule, |data|).value.popped == DecodeAll(ms)
    ensures StopsAt(LogFile(ms, clock, size), |ms|)
    ensures Dispatch(b, Q.Run(Q.Init(data), schedule, |data|).value.popped) ==
            Dispatch(b, OrdersIn(LogFile(ms, clock, size), |ms|))
  {
    hide Dispatch, OrdersIn, LogFile, Q.Run, Q.Init, Q.Offered, Q.NoPushFails, DecodeAll, StopsAt, WellFormed, AllWhole;
    CleanLogReplays(ms, clock, size);
    Q.DrainedDeliversAll(data, schedule, |data|, k);
  }

  /** After any crash that leaves the first `k` frames, the recovered book is the live book
      after the first `k` logged messages. */
  lemma CrashKeepsPrefix(ms: seq<Message>, clock: Clock, size: nat, k: nat, b: Book)
    requires AllWhole(ms) && 64 * |ms| <= size && k <= |ms| && 64 * k + 64 <= size && WellFormed(b)
    ensures AllWhole(ms[..k])
    ensures var file := LogFile(ms, clock, size)[..64 * k] + Zeros(size - 64 * k);
            && StopsAt(file, k)
            && Dispatch(b, OrdersIn(file, k)) == Dispatch(b, DecodeAll(ms[..k]))
  {
    hide Dispatch, OrdersIn, LogFile, DecodeAll, StopsAt;
    TruncatedLogReplays(ms, clock, size, k);
  }

  /** What the poller has handed to the parser after a schedule of the ring. */
  function Received(feed: seq<byte>, ring: seq<RxRing.Thread>, frames: nat): seq<Message>
    requires frames > 0
  {
    RxRing.Run(RxRing.Init(feed, frames), ring, frames).delivered
  }

  lemma ReceivedIsUsable(feed: seq<byte>, ring: seq<RxRing.Thread>, frames: nat)
    requires frames > 0 && RxRing.AllFit(RxRing.Messages(feed))
    requires AllCuttable(RxRing.Messages(feed)) && |CutAll(RxRing.Messages(feed))| < MAX_FRAMES
    ensures Received(feed, ring, frames) <= RxRing.Messages(feed)
    ensures AllCuttable(Received(feed, ring, frames)) && |CutAll(Received(feed, ring, frames))| < MAX_FRAMES
  {
    hide CutAll, Cuttable, RxRing.Messages, RxRing.Run, RxRing.Init, RxRing.AllFit, RxRing.UserOwns;
    RxRing.EveryScheduleDelivers(feed, ring, frames);
    CutAllPrefix(Received(feed, ring, frames), RxRing.Messages(feed));
  }

  /** The live side and the restart, on the packets received: any schedule of the queue that
      delivers what the parser offered gives a live book equal to the recovered one. */
  method RunAndRecover(blocks: seq<Message>, data: seq<Order>, schedule: seq<Q.Action<Order>>, ghost k: nat,
                       maxOrders: nat, clock: Clock)
    returns (live: LimitOrderBook, recovered: LimitOrderBook, liveOk: bool, recoveredOk: bool, report: Report)
    requires 0 < maxOrders <= ORDER_MAP_SIZE
    requires AllCuttable(blocks) && |CutAll(blocks)| < MAX_FRAMES
    requires |data| == Pow2(k) && Delivers(data, schedule) && Offers(schedule, CutAll(blocks))
    ensures live.Valid() && recovered.Valid()
    ensures recovered.book == live.book && recoveredOk == liveOk
    ensures Outcome(live.book, liveOk) == FromEmpty(maxOrders, DecodeAll(CutAll(blocks)))
    ensures ReportOf(maxOrders, CutAll(blocks), liveOk, LooksTorn(CutAll(blocks)), report)
  {
    hide LimitOrderBook.Valid, Parser.ItchParser.Valid, LogFile, DecodeAll, AllWhole, AllCuttable, CutAll, FromEmpty, OrdersIn, StopsAt, HoldsLog, FrameAt, ReportOf, LooksTorn;
    var parser := ParseAll(blocks, clock);
    LogOfAll(parser);
    CleanLogReplays(parser.seen, clock, FILE_SIZE);
    Q.DrainedDeliversAll(data, schedule, |data|, k);
    var file := parser.logger.file[..];
    live, liveOk := RunLive(Q.Run(Q.Init(data), schedule, |data|).value.popped, maxOrders);
    recovered, recoveredOk, report := RecoverLog(file, parser.seen, clock, maxOrders);
  }

  /** The whole path, from the packet file to the two books, under any schedule of the ring
      and any schedule of the queue in which no `push` fails. When the ring has come to rest,
      the books are those of the whole file. */
  method RunSystem(feed: seq<byte>, ring: seq<RxRing.Thread>, frames: nat,
                   data: seq<Order>, schedule: seq<Q.Action<Order>>, ghost k: nat, maxOrders: nat, clock: Clock)
    returns (live: LimitOrderBook, recovered: LimitOrderBook, liveOk: bool, recoveredOk: bool, report: Report)
    requires 0 < maxOrders <= ORDER_MAP_SIZE && frames > 0
    requires RxRing.AllFit(RxRing.Messages(feed))
    requires AllCuttable(RxRing.Messages(feed)) && |CutAll(RxRing.Messages(feed))| < MAX_FRAMES
    requires |data| == Pow2(k) && Delivers(data, schedule)
    requires Offers(schedule, CutAll(Received(feed, ring, frames)))
    ensures live.Valid() && recovered.Valid()
    ensures recovered.book == live.book && recoveredOk == liveOk
    ensures Received(feed, ring, frames) <= RxRing.Messages(feed)
    ensures Outcome(live.book, liveOk) == FromEmpty(maxOrders, DecodeAll(CutAll(Received(feed, ring, frames))))
    ensures var ms := CutAll(Received(feed, ring, frames));
            ReportOf(maxOrders, ms, liveOk, LooksTorn(ms), report)
    ensures var s := RxRing.Run(RxRing.Init(feed, frames), ring, frames);
            |s.frames| == frames && (RxRing.AtRest(s) ==> Received(feed, ring, frames) == RxRing.Messages(feed))
  {
    hide LimitOrderBook.Valid, DecodeAll, AllCuttable, CutAll, FromEmpty, Delivers, ReportOf, LooksTorn, RxRing.Messages, RxRing.Run, RxRing.Init, RxRing.AllFit, RxRing.UserOwns;
    ReceivedIsUsable(feed, ring, frames);
    RxRing.EveryScheduleDelivers(feed, ring, frames);
    live, recovered, liveOk, recoveredOk, report :=
      RunAndRecover(Received(feed, ring, frames), data, schedule, k, maxOrders, clock);
  }
}
