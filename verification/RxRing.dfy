/** The receive ring in simulation mode: a thread standing in for the kernel copies the
    length-prefixed messages of a file into the frames of a ring, and the poller hands each
    filled frame to the parser. The status word of a frame says who owns it.
 */
module RxRing {
  import opened Bits
  import opened Bytes
  import opened Ring

  const FRAME_ROOM: nat := 2048 - 32 // RX_FRAME_SIZE less the aligned tpacket2_hdr

  // ----- the file

  /** The length prefix: two bytes in network order. */
  function PrefixedLength(b: seq<byte>): u16
    requires |b| >= 2
  {
    Bswap16(LoadU16(b, 0))
  }

  /** Whether a whole length-prefixed message stands at the head of `b`. */
  predicate HasMessage(b: seq<byte>) {
    |b| >= 2 && |b| - 2 >= PrefixedLength(b)
  }

  function FirstMessage(b: seq<byte>): Message
    requires HasMessage(b)
  {
    Message(b[2..2 + PrefixedLength(b)])
  }

  function AfterMessage(b: seq<byte>): (r: seq<byte>)
    requires HasMessage(b)
    ensures |r| < |b|
  {
    b[2 + PrefixedLength(b)..]
  }

  /** The whole messages of a file, in order. */
  function Messages(b: seq<byte>): seq<Message>
    decreases |b|
  {
    if HasMessage(b) then [FirstMessage(b)] + Messages(AfterMessage(b)) else []
  }

  function Prefixed(ms: seq<Message>): seq<byte> {
    if ms == [] then [] else ToBE(2, |ms[0].bytes|) + ms[0].bytes + Prefixed(ms[1..])
  }

  lemma Pieces(p: seq<byte>, m: seq<byte>, tail: seq<byte>)
    ensures var b := p + m + tail;
            b[0..|p|] == p && b[|p|..|p| + |m|] == m && b[|p| + |m|..] == tail
  {
  }

  lemma HeadMessage(m: seq<byte>, tail: seq<byte>)
    requires |m| < 0x1_0000
    ensures var b := ToBE(2, |m|) + m + tail;
            HasMessage(b) && FirstMessage(b) == Message(m) && AfterMessage(b) == tail
  {
    hide ToBE, Bswap16, LoadU16;
    var b := ToBE(2, |m|) + m + tail;
    Pieces(ToBE(2, |m|), m, tail);
    Field16(b, 0, |m|);
  }

  /** Splitting inverts prefixing, with an incomplete message allowed at the end. */
  lemma {:induction false} SplitInvertsPrefixing(ms: seq<Message>, rest: seq<byte>)
    requires forall i :: 0 <= i < |ms| ==> |ms[i].bytes| < 0x1_0000
    requires !HasMessage(rest)
    ensures Messages(Prefixed(ms) + rest) == ms
  {
    if ms == [] {
      assert Prefixed(ms) + rest == rest;
    } else {
      hide ToBE, HasMessage, FirstMessage, AfterMessage;
      var m, tail := ms[0].bytes, Prefixed(ms[1..]) + rest;
      SplitInvertsPrefixing(ms[1..], rest);
      HeadMessage(m, tail);
      SeqAssoc(ToBE(2, |m|) + m, Prefixed(ms[1..]), rest);
    }
  }

  // ----- the two threads

  /** One frame: its status word, the captured length and its payload area. */
  datatype Frame = Frame(user: bool, snaplen: nat, memory: seq<byte>)

  datatype Kernel =
    | NextMessage
    | WaitFree(m: Message)
    | FillFrame(m: Message)
    | PublishFrame(m: Message)
    | EndOfData

  datatype Poller = WaitFilled | ParseFrame | ReturnFrame

  /** The ring, the two threads, the unread part of the file, and the history: messages
      handed over, frames handed back, and payloads given to the parser. */
  datatype State = State(
    frames: seq<Frame>,
    rest: seq<byte>, kernelIdx: nat, kernel: Kernel,
    pollerIdx: nat, poller: Poller,
    sent: seq<Message>, returned: nat, delivered: seq<Message>)

  datatype Thread = KernelThread | PollerThread

  function KernelStep(s: State, n: nat): State
    requires n > 0
  {
    match s.kernel
    case NextMessage => s.(kernel := if HasMessage(s.rest) then WaitFree(FirstMessage(s.rest)) else EndOfData)
    case WaitFree(m) =>
      if s.kernelIdx < |s.frames| && !s.frames[s.kernelIdx].user then s.(kernel := FillFrame(m)) else s
    case FillFrame(m) =>
      if s.kernelIdx < |s.frames| && |m.bytes| <= |s.frames[s.kernelIdx].memory| then
        var f := s.frames[s.kernelIdx];
        var filled := f.(snaplen := |m.bytes|, memory := m.bytes + f.memory[|m.bytes|..]);
        s.(frames := s.frames[s.kernelIdx := filled], kernel := PublishFrame(m))
      else s
    case PublishFrame(m) =>
      if s.kernelIdx < |s.frames| && HasMessage(s.rest) then
        s.(frames := s.frames[s.kernelIdx := s.frames[s.kernelIdx].(user := true)],
           rest := AfterMessage(s.rest),
           kernelIdx := (s.kernelIdx + 1) % n,
           kernel := NextMessage,
           sent := s.sent + [m])
      else s
    case EndOfData => s
  }

  function PollerStep(s: State, n: nat): State
    requires n > 0
  {
    match s.poller
    case WaitFilled =>
      if s.pollerIdx < |s.frames| && s.frames[s.pollerIdx].user then s.(poller := ParseFrame) else s
    case ParseFrame =>
      if s.pollerIdx < |s.frames| && s.frames[s.pollerIdx].snaplen <= |s.frames[s.pollerIdx].memory| then
        var f := s.frames[s.pollerIdx];
        s.(delivered := s.delivered + [Message(f.memory[..f.snaplen])], poller := ReturnFrame)
      else s
    case ReturnFrame =>
      if s.pollerIdx < |s.frames| then
        s.(frames := s.frames[s.pollerIdx := s.frames[s.pollerIdx].(user := false)],
           pollerIdx := (s.pollerIdx + 1) % n,
           poller := WaitFilled,
           returned := s.returned + 1)
      else s
  }

  function Step(s: State, t: Thread, n: nat): State
    requires n > 0
  {
    if t == KernelThread then KernelStep(s, n) else PollerStep(s, n)
  }

  function Run(s: State, schedule: seq<Thread>, n: nat): State
    requires n > 0
    decreases |schedule|
  {
    if schedule == [] then s else Run(Step(s, schedule[0], n), schedule[1..], n)
  }

  function Init(file: seq<byte>, n: nat): State {
    State(seq(n, _ => Frame(false, 0, Zeros(FRAME_ROOM))), file, 0, NextMessage, 0, WaitFilled, [], 0, [])
  }

  // ----- the invariant

  ghost predicate Holds(f: Frame, m: Message) {
    f.snaplen == |m.bytes| <= |f.memory| && f.memory[..f.snaplen] == m.bytes
  }

  /** The frames from the poller's to the kernel's index belong to the poller and hold the
      messages in flight; all others belong to the kernel. */
  ghost predicate Ownership(s: State, n: nat)
    requires n > 0
  {
    && |s.frames| == n
    && s.kernelIdx == Slot(|s.sent|, n)
    && s.pollerIdx == Slot(s.returned, n)
    && s.returned <= |s.sent| <= s.returned + n
    && (forall j :: 0 <= j < n ==> |s.frames[j].memory| == FRAME_ROOM)
    && (forall c :: s.returned <= c < |s.sent| ==>
          s.frames[Slot(c, n)].user && Holds(s.frames[Slot(c, n)], s.sent[c]))
    && (forall c :: |s.sent| <= c < s.returned + n ==> !s.frames[Slot(c, n)].user)
  }

  ghost predicate KernelOk(s: State, n: nat)
    requires n > 0 && |s.frames| == n
  {
    match s.kernel
    case NextMessage => true
    case WaitFree(m) => HasMessage(s.rest) && m == FirstMessage(s.rest)
    case FillFrame(m) => HasMessage(s.rest) && m == FirstMessage(s.rest) && |s.sent| < s.returned + n
    case PublishFrame(m) =>
      && HasMessage(s.rest) && m == FirstMessage(s.rest) && |s.sent| < s.returned + n
      && Holds(s.frames[Slot(|s.sent|, n)], m)
    case EndOfData => !HasMessage(s.rest)
  }

  ghost predicate PollerOk(s: State) {
    && s.returned <= |s.sent|
    && (!s.poller.WaitFilled? ==> s.returned < |s.sent|)
    && s.delivered == s.sent[..s.returned] + if s.poller.ReturnFrame? then [s.sent[s.returned]] else []
  }

  ghost predicate FileOk(s: State, file: seq<byte>) {
    s.sent + Messages(s.rest) == Messages(file)
  }

  ghost predicate AllFit(ms: seq<Message>) {
    forall i :: 0 <= i < |ms| ==> |ms[i].bytes| <= 2016
  }

  ghost predicate Inv(s: State, file: seq<byte>, n: nat)
    requires n > 0
  {
    Ownership(s, n) && KernelOk(s, n) && PollerOk(s) && FileOk(s, file)
  }

  // ----- every step keeps the invariant

  /** Slots of distinct running numbers within one lap differ. */
  lemma LapApart(n: nat, a: nat, lo: nat, hi: nat)
    requires n > 0 && lo <= a < hi <= lo + n
    ensures forall c :: lo <= c < hi && c != a ==> Slot(c, n) != Slot(a, n)
  {
    forall c | lo <= c < hi && c != a ensures Slot(c, n) != Slot(a, n) {
      if c < a { SlotsDiffer(c, a, n); } else { SlotsDiffer(a, c, n); }
    }
  }

  lemma FillKeeps(s: State, file: seq<byte>, n: nat)
    requires n > 0 && Inv(s, file, n) && s.kernel.FillFrame? && |s.kernel.m.bytes| <= FRAME_ROOM
    ensures Inv(KernelStep(s, n), file, n)
  {
    hide Slot, HasMessage, FirstMessage, AfterMessage, Messages;
    LapApart(n, |s.sent|, s.returned, s.returned + n);
  }

  lemma PublishOwnership(s: State, file: seq<byte>, n: nat)
    requires n > 0 && Inv(s, file, n) && s.kernel.PublishFrame?
    ensures Ownership(KernelStep(s, n), n)
  {
    hide Slot, HasMessage, FirstMessage, AfterMessage, Messages;
    LapApart(n, |s.sent|, s.returned, s.returned + n);
    SlotSuccessor(|s.sent|, n);
  }

  lemma MessagesSplit(sent: seq<Message>, rest: seq<byte>)
    requires HasMessage(rest)
    ensures sent + [FirstMessage(rest)] + Messages(AfterMessage(rest)) == sent + Messages(rest)
  {
    hide HasMessage, FirstMessage, AfterMessage;
    SeqAssoc(sent, [FirstMessage(rest)], Messages(AfterMessage(rest)));
  }

  lemma PublishKeeps(s: State, file: seq<byte>, n: nat)
    requires n > 0 && Inv(s, file, n) && s.kernel.PublishFrame?
    ensures Inv(KernelStep(s, n), file, n)
  {
    hide Slot, HasMessage, FirstMessage, AfterMessage, Messages;
    PublishOwnership(s, file, n);
    var s' := KernelStep(s, n);
    MessagesSplit(s.sent, s.rest);
    assert s'.sent[..s.returned] == s.sent[..s.returned];
  }

  /** The message being copied is one of the file's. */
  lemma NextFits(s: State, file: seq<byte>)
    requires FileOk(s, file) && AllFit(Messages(file)) && HasMessage(s.rest)
    ensures |FirstMessage(s.rest).bytes| <= FRAME_ROOM
  {
    assert Messages(file)[|s.sent|] == FirstMessage(s.rest);
  }

  /** The kernel's next frame is free exactly when the ring is not full. */
  lemma FreeMeansRoom(s: State, n: nat)
    requires n > 0 && Ownership(s, n)
    ensures !s.frames[s.kernelIdx].user <==> |s.sent| < s.returned + n
  {
    hide Slot;
    if |s.sent| == s.returned + n { SlotPlus(s.returned, n, n); }
  }

  lemma KernelKeeps(s: State, file: seq<byte>, n: nat)
    requires n > 0 && Inv(s, file, n) && AllFit(Messages(file))
    ensures Inv(KernelStep(s, n), file, n)
  {
    match s.kernel
    case FillFrame(m) =>
      NextFits(s, file);
      FillKeeps(s, file, n);
    case PublishFrame(_) => PublishKeeps(s, file, n);
    case _ => hide Slot, HasMessage, FirstMessage, AfterMessage, Messages; FreeMeansRoom(s, n);
  }

  lemma ReturnKeeps(s: State, file: seq<byte>, n: nat)
    requires n > 0 && Inv(s, file, n) && s.poller.ReturnFrame?
    ensures Inv(PollerStep(s, n), file, n)
  {
    hide Slot, HasMessage, FirstMessage, AfterMessage, Messages;
    LapApart(n, s.returned, s.returned, s.returned + n);
    SlotPlus(s.returned, n, n);
    SlotSuccessor(s.returned, n);
    assert s.sent[..s.returned + 1] == s.sent[..s.returned] + [s.sent[s.returned]];
  }

  lemma PollerKeeps(s: State, file: seq<byte>, n: nat)
    requires n > 0 && Inv(s, file, n)
    ensures Inv(PollerStep(s, n), file, n)
  {
    match s.poller
    case ReturnFrame => ReturnKeeps(s, file, n);
    case _ => hide Slot, HasMessage, FirstMessage, AfterMessage, Messages;
  }

  lemma {:induction false} RunKeeps(s: State, schedule: seq<Thread>, file: seq<byte>, n: nat)
    requires n > 0 && Inv(s, file, n) && AllFit(Messages(file))
    ensures Inv(Run(s, schedule, n), file, n)
    decreases |schedule|
  {
    if schedule != [] {
      KernelKeeps(s, file, n);
      PollerKeeps(s, file, n);
      RunKeeps(Step(s, schedule[0], n), schedule[1..], file, n);
    }
  }

  lemma InitOk(file: seq<byte>, n: nat)
    requires n > 0
    ensures Inv(Init(file, n), file, n)
  {
    SlotZero(n);
  }

  // ----- what holds under every schedule

  /** The status of the frame `d` places after the poller's. */
  predicate UserOwns(s: State, d: nat)
    requires s.frames != []
  {
    s.frames[Slot(s.pollerIdx + d, |s.frames|)].user
  }

  lemma UserRange(s: State, n: nat)
    requires n > 0 && Ownership(s, n)
    ensures forall d :: 0 <= d < n ==> (UserOwns(s, d) <==> d < |s.sent| - s.returned)
  {
    hide Slot, Holds;
    forall d | 0 <= d < n ensures UserOwns(s, d) <==> d < |s.sent| - s.returned {
      SlotOffset(s.returned, d, n);
    }
  }

  /** The file is read and the poller waits on a frame that the kernel owns. */
  predicate AtRest(s: State)
    requires s.frames != []
  {
    s.kernel.EndOfData? && s.poller.WaitFilled? && !UserOwns(s, 0)
  }

  lemma NothingLeft(s: State, n: nat)
    requires n > 0 && |s.frames| == n && KernelOk(s, n) && s.kernel.EndOfData?
    ensures Messages(s.rest) == []
  {
  }

  lemma DeliveredInOrder(s: State, file: seq<byte>, n: nat)
    requires n > 0 && Inv(s, file, n)
    ensures s.delivered <= Messages(file)
    ensures AtRest(s) ==> s.delivered == Messages(file)
  {
    hide Slot, Holds, HasMessage, KernelOk;
    UserRange(s, n);
    assert s.delivered <= s.sent;
    if AtRest(s) {
      NothingLeft(s, n);
      assert s.sent[..s.returned] == s.sent;
    }
  }

  /** For files whose messages fit a frame, under every interleaving: the frames marked for
      the user are exactly the cyclic range from the poller's to the kernel's index; the
      payloads delivered are a prefix of the file's messages, none lost, repeated or out of
      order; and when both threads have come to rest, all of them have been delivered. */
  lemma EveryScheduleDelivers(file: seq<byte>, schedule: seq<Thread>, n: nat)
    requires n > 0 && AllFit(Messages(file))
    ensures var s := Run(Init(file, n), schedule, n);
            && |s.frames| == n
            && s.returned <= |s.sent| <= s.returned + n
            && (forall d :: 0 <= d < n ==> (UserOwns(s, d) <==> d < |s.sent| - s.returned))
            && s.delivered <= Messages(file)
            && (AtRest(s) ==> s.delivered == Messages(file))
  {
    hide Run, Init, Messages, UserOwns, KernelOk, PollerOk;
    InitOk(file, n);
    RunKeeps(Init(file, n), schedule, file, n);
    UserRange(Run(Init(file, n), schedule, n), n);
    DeliveredInOrder(Run(Init(file, n), schedule, n), file, n);
  }

  // ----- both threads come to rest

  /** What is left to do: the file, the kernel's place in its loop, and the frames the poller
      has not handed back. */
  function Work(s: State): int {
    10 * |s.rest|
    + (match s.kernel
       case NextMessage => 4 case WaitFree(_) => 3 case FillFrame(_) => 2 case PublishFrame(_) => 1 case EndOfData => 0)
    + 3 * (|s.sent| - s.returned)
    - (match s.poller case WaitFilled => 0 case ParseFrame => 1 case ReturnFrame => 2)
  }

  lemma WorkIsNat(s: State)
    requires PollerOk(s)
    ensures Work(s) >= 0
  {
  }

  /** A step that changes anything leaves less to do. */
  lemma StepsFall(s: State, t: Thread, file: seq<byte>, n: nat)
    requires n > 0 && Inv(s, file, n)
    ensures Step(s, t, n) == s || Work(Step(s, t, n)) < Work(s)
  {
    hide Slot, Holds, Messages, HasMessage, FirstMessage;
  }

  /** Until both are at rest, one of the threads can move. */
  lemma SomeoneMoves(s: State, file: seq<byte>, n: nat)
    requires n > 0 && Inv(s, file, n) && AllFit(Messages(file)) && !AtRest(s)
    ensures Step(s, PollerThread, n) != s || Step(s, KernelThread, n) != s
  {
    hide Slot, Messages, HasMessage, FirstMessage, AfterMessage;
    UserRange(s, n);
    FreeMeansRoom(s, n);
    SlotOffset(s.returned, 0, n);
    if s.returned < |s.sent| {
      assert Holds(s.frames[Slot(s.returned, n)], s.sent[s.returned]);
    } else if HasMessage(s.rest) {
      NextFits(s, file);
    }
  }

  /** From every reachable state some schedule leads to rest, and any step on the way counts
      towards it: the threads cannot block each other or go on for ever. */
  lemma {:induction false} ComesToRest(s: State, file: seq<byte>, n: nat) returns (schedule: seq<Thread>)
    requires n > 0 && Inv(s, file, n) && AllFit(Messages(file))
    ensures var s' := Run(s, schedule, n);
            |s'.frames| == n && AtRest(s') && s'.delivered == Messages(file)
    decreases Work(s)
  {
    hide AtRest, KernelStep, PollerStep, Work, Messages, Slot, KernelOk, FileOk;
    if AtRest(s) {
      schedule := [];
      DeliveredInOrder(s, file, n);
    } else {
      SomeoneMoves(s, file, n);
      var t := if Step(s, PollerThread, n) != s then PollerThread else KernelThread;
      StepsFall(s, t, file, n);
      KernelKeeps(s, file, n);
      PollerKeeps(s, file, n);
      WorkIsNat(s);
      schedule := ComesToRest(Step(s, t, n), file, n);
      assert ([t] + schedule)[1..] == schedule;
      schedule := [t] + schedule;
    }
  }
}
