/** `SPSCQueue`: one producer and one consumer over a ring of `n` slots, `n` a power of
    two, each side caching the other's index.

    `push` and `pop` are split into their loads, comparisons, slot accesses and stores, and
    the steps of the two threads interleave in any order. A load of the other side's index
    may be stale: it returns any value that side has stored since the last one seen. The
    state carries, beside the fields of the queue, the history needed to say what it means:
    the items published and consumed, and how many of them each side knows of.
 */
module SpscQueue {
  import opened Bits
  import opened Collections
  import opened Ring

  /** Where the producer is inside `push`. */
  datatype Producer<T> =
    | ProducerIdle
    | CompareHead(tailIdx: nat, nextTail: nat, item: T)
    | LoadHead(tailIdx: nat, nextTail: nat, item: T)
    | CompareLoaded(tailIdx: nat, nextTail: nat, item: T)
    | WriteSlot(tailIdx: nat, nextTail: nat, item: T)
    | StoreTail(nextTail: nat, item: T)

  /** Where the consumer is inside `pop`. */
  datatype Consumer<T> =
    | ConsumerIdle
    | CompareTail(headIdx: nat, nextHead: nat)
    | LoadTail(headIdx: nat, nextHead: nat)
    | CompareLoadedTail(headIdx: nat, nextHead: nat)
    | ReadSlot(headIdx: nat, nextHead: nat)
    | StoreHead(nextHead: nat, output: T)

  datatype Queue<T> = Queue(
    data: seq<T>,
    tail: nat, cachedHead: nat,
    head: nat, cachedTail: nat,
    producer: Producer<T>, consumer: Consumer<T>,
    pushed: seq<T>, popped: seq<T>,
    seenPopped: nat, seenPushed: nat)

  datatype Action<T> =
    | BeginPush(x: T)
    | StepProducer
    | LoadHeadStale(popCount: nat)
    | BeginPop
    | StepConsumer
    | LoadTailStale(pushCount: nat)

  /** `(i + 1) & (Size - 1)`. */
  function NextIndex(i: nat, n: nat): nat
    requires n > 0
  {
    And(i + 1, n - 1)
  }

  // ----- the steps

  predicate Enabled<T>(q: Queue<T>, a: Action<T>) {
    match a
    case BeginPush(_) => q.producer.ProducerIdle?
    case StepProducer => !q.producer.ProducerIdle? && !q.producer.LoadHead?
    case LoadHeadStale(c) => q.producer.LoadHead? && q.seenPopped <= c <= |q.popped|
    case BeginPop => q.consumer.ConsumerIdle?
    case StepConsumer => !q.consumer.ConsumerIdle? && !q.consumer.LoadTail?
    case LoadTailStale(c) => q.consumer.LoadTail? && q.seenPushed <= c <= |q.pushed|
  }

  function ProducerStep<T>(q: Queue<T>): Queue<T> {
    match q.producer
    case ProducerIdle => q
    case CompareHead(t, nt, x) =>
      q.(producer := if q.cachedHead == nt then LoadHead(t, nt, x) else WriteSlot(t, nt, x))
    case LoadHead(_, _, _) => q
    case CompareLoaded(t, nt, x) =>
      q.(producer := if q.cachedHead == nt then ProducerIdle else WriteSlot(t, nt, x))
    case WriteSlot(t, nt, x) =>
      if t < |q.data| then q.(data := q.data[t := x], producer := StoreTail(nt, x)) else q
    case StoreTail(nt, x) => q.(tail := nt, producer := ProducerIdle, pushed := q.pushed + [x])
  }

  function ConsumerStep<T>(q: Queue<T>): Queue<T> {
    match q.consumer
    case ConsumerIdle => q
    case CompareTail(h, nh) =>
      q.(consumer := if h == q.cachedTail then LoadTail(h, nh) else ReadSlot(h, nh))
    case LoadTail(_, _) => q
    case CompareLoadedTail(h, nh) =>
      q.(consumer := if h == q.cachedTail then ConsumerIdle else ReadSlot(h, nh))
    case ReadSlot(h, nh) =>
      if h < |q.data| then q.(consumer := StoreHead(nh, q.data[h])) else q
    case StoreHead(nh, x) => q.(head := nh, consumer := ConsumerIdle, popped := q.popped + [x])
  }

  function Do<T>(q: Queue<T>, a: Action<T>, n: nat): Queue<T>
    requires n > 0 && Enabled(q, a)
  {
    match a
    case BeginPush(x) => q.(producer := CompareHead(q.tail, NextIndex(q.tail, n), x))
    case StepProducer => ProducerStep(q)
    case LoadHeadStale(c) =>
      var p := q.producer;
      q.(cachedHead := Slot(c, n), seenPopped := c, producer := CompareLoaded(p.tailIdx, p.nextTail, p.item))
    case BeginPop => q.(consumer := CompareTail(q.head, NextIndex(q.head, n)))
    case StepConsumer => ConsumerStep(q)
    case LoadTailStale(c) =>
      var p := q.consumer;
      q.(cachedTail := Slot(c, n), seenPushed := c, consumer := CompareLoadedTail(p.headIdx, p.nextHead))
  }

  function Init<T>(data: seq<T>): Queue<T> {
    Queue(data, 0, 0, 0, 0, ProducerIdle, ConsumerIdle, [], [], 0, 0)
  }

  /** The state after a schedule, or nothing if some step of it is not possible. */
  function Run<T>(q: Queue<T>, schedule: seq<Action<T>>, n: nat): Option<Queue<T>>
    requires n > 0
    decreases |schedule|
  {
    if schedule == [] then Some(q)
    else if !Enabled(q, schedule[0]) then None
    else Run(Do(q, schedule[0], n), schedule[1..], n)
  }

  // ----- the invariant

  ghost predicate Indices<T>(q: Queue<T>, n: nat)
    requires n > 0
  {
    && |q.data| == n
    && q.tail == Slot(|q.pushed|, n)
    && q.head == Slot(|q.popped|, n)
    && q.cachedHead == Slot(q.seenPopped, n)
    && q.cachedTail == Slot(q.seenPushed, n)
    && q.seenPopped <= |q.popped| <= q.seenPushed <= |q.pushed| < q.seenPopped + n
  }

  /** Each item in flight sits in its slot, and what was consumed is what was published. */
  ghost predicate Contents<T>(q: Queue<T>, n: nat)
    requires n > 0 && |q.data| == n
  {
    && q.popped <= q.pushed
    && forall c :: |q.popped| <= c < |q.pushed| ==> q.data[Slot(c, n)] == q.pushed[c]
  }

  ghost predicate ProducerOk<T>(q: Queue<T>, n: nat)
    requires n > 0 && |q.data| == n
  {
    match q.producer
    case ProducerIdle => true
    case CompareHead(t, nt, _) => t == q.tail && nt == NextIndex(q.tail, n)
    case LoadHead(t, nt, _) => t == q.tail && nt == NextIndex(q.tail, n)
    case CompareLoaded(t, nt, _) => t == q.tail && nt == NextIndex(q.tail, n)
    case WriteSlot(t, nt, _) => t == q.tail && nt == NextIndex(q.tail, n) && |q.pushed| + 1 < q.seenPopped + n
    case StoreTail(nt, x) =>
      q.tail < n && nt == NextIndex(q.tail, n) && |q.pushed| + 1 < q.seenPopped + n && q.data[q.tail] == x
  }

  ghost predicate ConsumerOk<T>(q: Queue<T>, n: nat)
    requires n > 0
  {
    match q.consumer
    case ConsumerIdle => true
    case CompareTail(h, nh) => h == q.head && nh == NextIndex(q.head, n)
    case LoadTail(h, nh) => h == q.head && nh == NextIndex(q.head, n)
    case CompareLoadedTail(h, nh) => h == q.head && nh == NextIndex(q.head, n)
    case ReadSlot(h, nh) => h == q.head && nh == NextIndex(q.head, n) && |q.popped| < q.seenPushed
    case StoreHead(nh, x) =>
      nh == NextIndex(q.head, n) && |q.popped| < q.seenPushed <= |q.pushed| && x == q.pushed[|q.popped|]
  }

  ghost predicate Inv<T>(q: Queue<T>, n: nat)
    requires n > 0
  {
    Indices(q, n) && Contents(q, n) && ProducerOk(q, n) && ConsumerOk(q, n)
  }

  // ----- ring arithmetic

  lemma SlotNext(c: nat, n: nat, k: nat)
    requires n == Pow2(k)
    ensures NextIndex(Slot(c, n), n) == Slot(c + 1, n)
  {
    AndMaskIsMod(Slot(c, n) + 1, k);
    SlotSuccessor(c, n);
  }

  // ----- every step keeps the invariant

  /** Moving one side's program counter leaves the contents and the other side alone. */
  lemma SameParts<T>(q: Queue<T>, q': Queue<T>, n: nat)
    requires n > 0 && Inv(q, n)
    requires q' == q.(producer := q'.producer) || q' == q.(consumer := q'.consumer)
    ensures Contents(q', n)
    ensures q'.producer == q.producer ==> ProducerOk(q', n)
    ensures q'.consumer == q.consumer ==> ConsumerOk(q', n)
  {
  }

  lemma CompareKeeps<T>(q: Queue<T>, n: nat, k: nat)
    requires n == Pow2(k) && Inv(q, n) && (q.producer.CompareHead? || q.producer.CompareLoaded?)
    ensures Inv(ProducerStep(q), n)
  {
    hide Slot, NextIndex, Contents, ConsumerOk;
    SlotNext(|q.pushed|, n, k);
    RingFull(q.seenPopped, |q.pushed| + 1, n);
    SameParts(q, ProducerStep(q), n);
  }

  /** The write goes to a slot that holds no item in flight. */
  lemma WriteKeeps<T>(q: Queue<T>, n: nat)
    requires n > 0 && Inv(q, n) && q.producer.WriteSlot?
    ensures forall c :: |q.popped| <= c < |q.pushed| ==> Slot(c, n) != q.producer.tailIdx
    ensures Inv(ProducerStep(q), n)
  {
    hide Slot, NextIndex;
    forall c | |q.popped| <= c < |q.pushed| ensures Slot(c, n) != q.tail {
      SlotsDiffer(c, |q.pushed|, n);
    }
  }

  lemma PublishKeeps<T>(q: Queue<T>, n: nat, k: nat)
    requires n == Pow2(k) && Inv(q, n) && q.producer.StoreTail?
    ensures Inv(ProducerStep(q), n)
  {
    hide Slot, NextIndex;
    SlotNext(|q.pushed|, n, k);
  }

  lemma ProducerKeeps<T>(q: Queue<T>, n: nat, k: nat)
    requires n == Pow2(k) && Inv(q, n)
    ensures Inv(ProducerStep(q), n)
  {
    hide Inv;
    match q.producer
    case CompareHead(_, _, _) => CompareKeeps(q, n, k);
    case CompareLoaded(_, _, _) => CompareKeeps(q, n, k);
    case WriteSlot(_, _, _) => WriteKeeps(q, n);
    case StoreTail(_, _) => PublishKeeps(q, n, k);
    case _ =>
  }

  lemma ConsumeKeeps<T>(q: Queue<T>, n: nat, k: nat)
    requires n == Pow2(k) && Inv(q, n) && q.consumer.StoreHead?
    ensures Inv(ConsumerStep(q), n)
  {
    hide Slot, NextIndex;
    SlotNext(|q.popped|, n, k);
  }

  lemma ConsumerKeeps<T>(q: Queue<T>, n: nat, k: nat)
    requires n == Pow2(k) && Inv(q, n)
    ensures Inv(ConsumerStep(q), n)
  {
    if q.consumer.StoreHead? {
      ConsumeKeeps(q, n, k);
    } else {
      hide Slot, NextIndex, ProducerOk;
      SlotsDiffer(|q.popped|, q.seenPushed, n);
      SameParts(q, ConsumerStep(q), n);
    }
  }

  lemma StepKeeps<T>(q: Queue<T>, a: Action<T>, n: nat, k: nat)
    requires n == Pow2(k) && Inv(q, n) && Enabled(q, a)
    ensures Inv(Do(q, a, n), n)
  {
    match a
    case StepProducer => ProducerKeeps(q, n, k);
    case StepConsumer => ConsumerKeeps(q, n, k);
    case _ =>
  }

  lemma {:induction false} RunKeeps<T>(q: Queue<T>, schedule: seq<Action<T>>, n: nat, k: nat)
    requires n == Pow2(k) && Inv(q, n) && Run(q, schedule, n).Some?
    ensures Inv(Run(q, schedule, n).value, n)
    decreases |schedule|
  {
    if schedule != [] {
      StepKeeps(q, schedule[0], n, k);
      RunKeeps(Do(q, schedule[0], n), schedule[1..], n, k);
    }
  }

  // ----- what holds under every schedule

  lemma InitOk<T>(data: seq<T>, n: nat)
    requires n > 0 && |data| == n
    ensures Inv(Init(data), n)
  {
    SlotZero(n);
  }

  /** Under every interleaving and every stale view of the other side's index: what was
      popped is a prefix of what was pushed, at most `n - 1` items are in flight, the
      producer never writes a slot that is not yet consumed, in particular not the one
      being read, and the item about to be returned is the next one in order. */
  lemma EveryScheduleIsFifo<T>(data: seq<T>, schedule: seq<Action<T>>, n: nat, k: nat)
    requires n == Pow2(k) && |data| == n && Run(Init(data), schedule, n).Some?
    ensures var q := Run(Init(data), schedule, n).value;
            && q.popped <= q.pushed
            && |q.pushed| - |q.popped| <= n - 1
            && (q.producer.WriteSlot? ==>
                  && q.producer.tailIdx < |q.data|
                  && forall c :: |q.popped| <= c < |q.pushed| ==> Slot(c, n) != q.producer.tailIdx)
            && (q.producer.WriteSlot? && q.consumer.ReadSlot? ==> q.producer.tailIdx != q.consumer.headIdx)
            && (q.consumer.StoreHead? ==> |q.popped| < |q.pushed| && q.consumer.output == q.pushed[|q.popped|])
  {
    InitOk(data, n);
    RunKeeps(Init(data), schedule, n, k);
    var q := Run(Init(data), schedule, n).value;
    hide Run, Slot, NextIndex;
    if q.producer.WriteSlot? {
      WriteKeeps(q, n);
      if q.consumer.ReadSlot? { SlotsDiffer(|q.popped|, |q.pushed|, n); }
    }
  }

  /** `push` returns false exactly when the pops it knows of leave no room, and `pop`
      exactly when it knows of no item left. With a fresh load these are full and empty. */
  lemma FailsOnlyWhenFullOrEmpty<T>(q: Queue<T>, n: nat, k: nat)
    requires n == Pow2(k) && Inv(q, n)
    ensures q.producer.CompareLoaded? ==>
              (ProducerStep(q).producer.ProducerIdle? <==> |q.pushed| - q.seenPopped == n - 1)
    ensures q.consumer.CompareLoadedTail? ==>
              (ConsumerStep(q).consumer.ConsumerIdle? <==> q.seenPushed == |q.popped|)
  {
    hide Slot, NextIndex;
    SlotNext(|q.pushed|, n, k);
    RingFull(q.seenPopped, |q.pushed| + 1, n);
    SlotsDiffer(|q.popped|, q.seenPushed, n);
  }

  // ----- calls end, and fail only for cause

  /** The step ends a `push` that did not publish, that is, returned false. */
  ghost predicate EndsPushInVain<T>(q: Queue<T>, q': Queue<T>) {
    !q.producer.ProducerIdle? && q'.producer.ProducerIdle? && q'.pushed == q.pushed
  }

  /** The step ends a `pop` that did not consume, that is, returned false. */
  ghost predicate EndsPopInVain<T>(q: Queue<T>, q': Queue<T>) {
    !q.consumer.ConsumerIdle? && q'.consumer.ConsumerIdle? && q'.popped == q.popped
  }

  /** `push` returns false exactly at the second comparison and with a view of the pops in
      which the ring is full; `pop` exactly at its second comparison and with a view of the
      pushes in which nothing is left. */
  lemma FailsExactlyWhen<T>(q: Queue<T>, a: Action<T>, n: nat, k: nat)
    requires n == Pow2(k) && Inv(q, n) && Enabled(q, a)
    ensures EndsPushInVain(q, Do(q, a, n)) <==>
            a.StepProducer? && q.producer.CompareLoaded? && |q.pushed| - q.seenPopped == n - 1
    ensures EndsPopInVain(q, Do(q, a, n)) <==>
            a.StepConsumer? && q.consumer.CompareLoadedTail? && q.seenPushed == |q.popped|
  {
    FailsOnlyWhenFullOrEmpty(q, n, k);
    hide Slot, NextIndex, Contents;
  }

  /** The consumer's next step when it runs alone, its loads being up to date. */
  function NextOfPop<T>(q: Queue<T>): Action<T> {
    if q.consumer.ConsumerIdle? then BeginPop
    else if q.consumer.LoadTail? then LoadTailStale(|q.pushed|)
    else StepConsumer
  }

  /** The producer's, when it pushes `x`. */
  function NextOfPush<T>(q: Queue<T>, x: T): Action<T> {
    if q.producer.ProducerIdle? then BeginPush(x)
    else if q.producer.LoadHead? then LoadHeadStale(|q.popped|)
    else StepProducer
  }

  /** The consumer alone for `m` steps, or until its call returns. */
  function PopAlone<T>(q: Queue<T>, m: nat, n: nat): Queue<T>
    requires n > 0
    decreases m
  {
    if m == 0 || !Enabled(q, NextOfPop(q)) then q
    else
      var q' := Do(q, NextOfPop(q), n);
      if q'.consumer.ConsumerIdle? then q' else PopAlone(q', m - 1, n)
  }

  function PushAlone<T>(q: Queue<T>, x: T, m: nat, n: nat): Queue<T>
    requires n > 0
    decreases m
  {
    if m == 0 || !Enabled(q, NextOfPush(q, x)) then q
    else
      var q' := Do(q, NextOfPush(q, x), n);
      if q'.producer.ProducerIdle? then q' else PushAlone(q', x, m - 1, n)
  }

  /** How many steps the consumer is from the end of its call. */
  function PopSteps<T>(q: Queue<T>): nat {
    match q.consumer
    case ConsumerIdle => 6
    case CompareTail(_, _) => 5
    case LoadTail(_, _) => 4
    case CompareLoadedTail(_, _) => 3
    case ReadSlot(_, _) => 2
    case StoreHead(_, _) => 1
  }

  function PushSteps<T>(q: Queue<T>): nat {
    match q.producer
    case ProducerIdle => 6
    case CompareHead(_, _, _) => 5
    case LoadHead(_, _, _) => 4
    case CompareLoaded(_, _, _) => 3
    case WriteSlot(_, _, _) => 2
    case StoreTail(_, _) => 1
  }

  /** From wherever the consumer stands with an item left, unless it is about to fail on an
      old view, its call ends within the steps counted above and returns the next item. */
  lemma {:induction false} PopDelivers<T>(q: Queue<T>, m: nat, n: nat, k: nat)
    requires n == Pow2(k) && Inv(q, n) && |q.popped| < |q.pushed| && m >= PopSteps(q)
    requires q.consumer.CompareLoadedTail? ==> q.seenPushed == |q.pushed|
    ensures var q' := PopAlone(q, m, n);
            && Inv(q', n) && q'.consumer.ConsumerIdle?
            && q'.popped == q.popped + [q.pushed[|q.popped|]]
            && q'.pushed == q.pushed && q'.producer == q.producer
    decreases PopSteps(q)
  {
    hide Slot, NextIndex, Contents, ProducerOk;
    var a := NextOfPop(q);
    StepKeeps(q, a, n, k);
    FailsOnlyWhenFullOrEmpty(q, n, k);
    if !q.consumer.StoreHead? {
      PopDelivers(Do(q, a, n), m - 1, n, k);
    }
  }

  lemma {:induction false} PushSucceeds<T>(q: Queue<T>, x: T, m: nat, n: nat, k: nat)
    requires n == Pow2(k) && Inv(q, n) && |q.pushed| - |q.popped| < n - 1 && m >= PushSteps(q)
    requires q.producer.CompareLoaded? ==> q.seenPopped == |q.popped|
    requires !q.producer.ProducerIdle? ==> q.producer.item == x
    ensures var q' := PushAlone(q, x, m, n);
            && Inv(q', n) && q'.producer.ProducerIdle?
            && q'.pushed == q.pushed + [x]
            && q'.popped == q.popped && q'.consumer == q.consumer
    decreases PushSteps(q)
  {
    hide Slot, NextIndex, Contents, ConsumerOk;
    var a := NextOfPush(q, x);
    StepKeeps(q, a, n, k);
    FailsOnlyWhenFullOrEmpty(q, n, k);
    if !q.producer.StoreTail? {
      PushSucceeds(Do(q, a, n), x, m - 1, n, k);
    }
  }

  /** Popping again and again, each call within six steps, drains the queue. */
  function PopAll<T>(q: Queue<T>, calls: nat, n: nat): Queue<T>
    requires n > 0
    decreases calls
  {
    if calls == 0 then q else PopAll(PopAlone(q, 6, n), calls - 1, n)
  }

  lemma {:induction false} EveryItemIsPopped<T>(q: Queue<T>, n: nat, k: nat)
    requires n == Pow2(k) && Inv(q, n) && q.consumer.ConsumerIdle?
    ensures var q' := PopAll(q, |q.pushed| - |q.popped|, n);
            q'.popped == q.pushed && q'.pushed == q.pushed && q'.consumer.ConsumerIdle?
    decreases |q.pushed| - |q.popped|
  {
    hide Slot, NextIndex;
    if |q.popped| == |q.pushed| {
      assert q.popped == q.pushed[..|q.popped|] == q.pushed;
    } else {
      PopDelivers(q, 6, n, k);
      EveryItemIsPopped(PopAlone(q, 6, n), n, k);
    }
  }

  // ----- what the producer offered

  /** The items of the `push` calls of a schedule, in order. */
  function Offered<T>(schedule: seq<Action<T>>): seq<T>
    decreases |schedule|
  {
    if schedule == [] then []
    else (if schedule[0].BeginPush? then [schedule[0].x] else []) + Offered(schedule[1..])
  }

  /** The step at which `push` returns false. */
  predicate PushFails<T>(q: Queue<T>, a: Action<T>) {
    a.StepProducer? && q.producer.CompareLoaded? && ProducerStep(q).producer.ProducerIdle?
  }

  predicate NoPushFails<T>(q: Queue<T>, schedule: seq<Action<T>>, n: nat)
    requires n > 0
    decreases |schedule|
  {
    schedule == [] || !Enabled(q, schedule[0]) ||
    (!PushFails(q, schedule[0]) && NoPushFails(Do(q, schedule[0], n), schedule[1..], n))
  }

  /** The item of a `push` that has not returned. */
  function InHand<T>(q: Queue<T>): seq<T> {
    if q.producer.ProducerIdle? then [] else [q.producer.item]
  }

  lemma OfferStep<T>(q: Queue<T>, a: Action<T>, n: nat)
    requires n > 0 && Enabled(q, a) && !PushFails(q, a)
    ensures var q' := Do(q, a, n);
            q'.pushed + InHand(q') == q.pushed + InHand(q) + if a.BeginPush? then [a.x] else []
  {
    hide Slot, NextIndex;
  }

  /** While every `push` returns true, the items pushed or in hand are those offered. */
  lemma {:induction false} PushedIsOffered<T>(q: Queue<T>, schedule: seq<Action<T>>, n: nat)
    requires n > 0 && Run(q, schedule, n).Some? && NoPushFails(q, schedule, n)
    ensures var q' := Run(q, schedule, n).value;
            q'.pushed + InHand(q') == q.pushed + InHand(q) + Offered(schedule)
    decreases |schedule|
  {
    hide InHand, Enabled, Do, PushFails;
    if schedule != [] {
      var a := schedule[0];
      var q1 := Do(q, a, n);
      OfferStep(q, a, n);
      PushedIsOffered(q1, schedule[1..], n);
      var now := if a.BeginPush? then [a.x] else [];
      assert q.pushed + InHand(q) + now + Offered(schedule[1..]) ==
             q.pushed + InHand(q) + (now + Offered(schedule[1..]));
    }
  }

  /** Neither side is inside a call and the indices meet. */
  predicate Drained<T>(q: Queue<T>) {
    q.producer.ProducerIdle? && q.consumer.ConsumerIdle? && q.head == q.tail
  }

  lemma DrainedMeets<T>(q: Queue<T>, n: nat)
    requires n > 0 && Inv(q, n) && Drained(q)
    ensures q.popped == q.pushed
  {
    hide Slot, NextIndex;
    SlotsDiffer(|q.popped|, |q.pushed|, n);
    assert q.popped == q.pushed[..|q.popped|];
  }

  /** Under every interleaving in which no `push` fails, a queue that has drained has
      delivered exactly the items offered, in order. */
  lemma DrainedDeliversAll<T>(data: seq<T>, schedule: seq<Action<T>>, n: nat, k: nat)
    requires n == Pow2(k) && |data| == n && Run(Init(data), schedule, n).Some?
    requires NoPushFails(Init(data), schedule, n) && Drained(Run(Init(data), schedule, n).value)
    ensures Run(Init(data), schedule, n).value.popped == Offered(schedule)
  {
    hide Run, Inv, NoPushFails, Offered;
    InitOk(data, n);
    RunKeeps(Init(data), schedule, n, k);
    PushedIsOffered(Init(data), schedule, n);
    var q := Run(Init(data), schedule, n).value;
    DrainedMeets(q, n);
    assert q.pushed + InHand(q) == q.pushed;
    assert Init(data).pushed + InHand(Init(data)) + Offered(schedule) == Offered(schedule);
  }
}
