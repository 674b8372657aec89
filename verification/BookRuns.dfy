/** What holds of the book over every run: any sequence of adds, executions and cancels,
    rejected and failing ones and re-used ids included.
 */
module BookRuns {
  import opened Bits
  import opened Collections
  import opened Orders
  import opened ListBook

  /** Apply every order, going on after an execution that was refused. */
  function Run(b: Book, orders: seq<Order>): Book
    requires WellFormed(b)
    decreases |orders|
  {
    if orders == [] then b
    else
      StepKeeps(b, orders[0]);
      Run(Step(b, orders[0]).book, orders[1..])
  }

  /** Apply the orders up to the first refused execution, which ends the run, as an
      exception ends the consumer loop and the recovery loop. */
  function Dispatch(b: Book, orders: seq<Order>): Outcome
    requires WellFormed(b)
    decreases |orders|
  {
    if orders == [] then Outcome(b, true)
    else
      StepKeeps(b, orders[0]);
      var next := Step(b, orders[0]);
      if !next.ok then next else Dispatch(next.book, orders[1..])
  }

  lemma {:induction false} RunKeeps(b: Book, orders: seq<Order>)
    requires WellFormed(b)
    ensures WellFormed(Run(b, orders)) && |Run(b, orders).nodes| == |b.nodes|
    decreases |orders|
  {
    if orders != [] {
      StepKeeps(b, orders[0]);
      RunKeeps(Step(b, orders[0]).book, orders[1..]);
    }
  }

  lemma {:induction false} DispatchKeeps(b: Book, orders: seq<Order>)
    requires WellFormed(b)
    ensures WellFormed(Dispatch(b, orders).book) && |Dispatch(b, orders).book.nodes| == |b.nodes|
    decreases |orders|
  {
    if orders != [] {
      StepKeeps(b, orders[0]);
      var next := Step(b, orders[0]);
      if next.ok { DispatchKeeps(next.book, orders[1..]); }
    }
  }

  /** A run of two batches is the second batch run from where the first ended. */
  lemma {:induction false} DispatchSplit(b: Book, s: seq<Order>, t: seq<Order>)
    requires WellFormed(b)
    ensures WellFormed(Dispatch(b, s).book)
    ensures Dispatch(b, s + t) ==
            if Dispatch(b, s).ok then Dispatch(Dispatch(b, s).book, t) else Dispatch(b, s)
    decreases |s|
  {
    DispatchKeeps(b, s);
    if s == [] {
      assert s + t == t;
    } else {
      StepKeeps(b, s[0]);
      var next := Step(b, s[0]);
      assert (s + t)[1..] == s[1..] + t;
      if next.ok { DispatchSplit(next.book, s[1..], t); }
    }
  }

  // ----- counting

  ghost function RestingNodes(b: Book): set<nat> {
    set n: nat | n < |b.nodes| && b.nodes[n].Resting?
  }

  /** Free nodes plus resting nodes are the whole pool. */
  lemma PoolConserved(b: Book)
    requires Partition(b)
    ensures |b.free| + |RestingNodes(b)| == |b.nodes|
  {
    var freeSet := set n | n in b.free;
    NoDupSize(b.free, freeSet);
    assert Range(|b.nodes|) == freeSet + RestingNodes(b);
    RangeSize(|b.nodes|);
  }

  /** Different ids lead to different resting nodes; unique ids lead to all of them. */
  lemma LiveInjective(b: Book)
    requires LiveOk(b)
    ensures forall i, j :: i in b.live && j in b.live && b.live[i] == b.live[j] ==> i == j
    ensures b.live.Values <= RestingNodes(b) && |b.live| <= |RestingNodes(b)|
    ensures IdsUnique(b) ==> b.live.Values == RestingNodes(b) && |b.live| == |RestingNodes(b)|
  {
    BijectionSize(b.live, b.live.Values);
    SubsetSize(b.live.Values, RestingNodes(b));
    if IdsUnique(b) {
      forall n | n in RestingNodes(b) ensures n in b.live.Values {
        assert b.nodes[n].id in b.live;
      }
    }
  }

  /** Pigeonhole: while a node is free, fewer ids are known than the pool has nodes. */
  lemma RoomForId(b: Book)
    requires WellFormed(b) && b.free != []
    ensures |b.live| < |b.nodes|
  {
    PoolConserved(b);
    LiveInjective(b);
  }

  /** The structural invariant of every reachable state: nothing is lost, nothing is in
      two places. */
  lemma EveryRunPartitionsPool(maxOrders: nat, orders: seq<Order>)
    ensures WellFormed(Init(maxOrders))
    ensures var b := Run(Init(maxOrders), orders);
            && WellFormed(b)
            && |b.nodes| == maxOrders
            && |b.free| + |RestingNodes(b)| == maxOrders
            && |b.live| <= |RestingNodes(b)|
  {
    InitOk(maxOrders);
    RunKeeps(Init(maxOrders), orders);
    PoolConserved(Run(Init(maxOrders), orders));
    LiveInjective(Run(Init(maxOrders), orders));
  }

  // ----- share conservation

  function NodeShares(n: Node): nat {
    if n.Resting? then n.shares else 0
  }

  /** Shares resting in the whole book. */
  function TotalShares(nodes: seq<Node>): nat {
    if nodes == [] then 0 else TotalShares(nodes[..|nodes| - 1]) + NodeShares(nodes[|nodes| - 1])
  }

  lemma {:induction false} TotalUpdate(nodes: seq<Node>, n: nat, x: Node)
    requires n < |nodes|
    ensures TotalShares(nodes[n := x]) == TotalShares(nodes) - NodeShares(nodes[n]) + NodeShares(x)
    decreases |nodes|
  {
    var k := |nodes| - 1;
    if n == k {
      assert nodes[n := x][..k] == nodes[..k];
    } else {
      TotalUpdate(nodes[..k], n, x);
      assert nodes[n := x][..k] == nodes[..k][n := x];
    }
  }

  /** What one order adds to, executes from and cancels from the resting shares. */
  datatype Flow = Flow(added: nat, executed: nat, cancelled: nat)

  function FlowOf(b: Book, order: Order): Flow
    requires LiveOk(b)
  {
    match order
    case Add(_, _, shares, price, _, _, _, _) => Flow(if Accepts(b, price) then shares else 0, 0, 0)
    case Execute(_, id, _, shares, _, _) =>
      Flow(0, if id in b.live && shares <= b.nodes[b.live[id]].shares then shares else 0, 0)
    case Cancel(_, id, _, _, _) => Flow(0, 0, if id in b.live then b.nodes[b.live[id]].shares else 0)
  }

  function FlowsOf(b: Book, orders: seq<Order>): Flow
    requires WellFormed(b)
    decreases |orders|
  {
    if orders == [] then Flow(0, 0, 0)
    else
      StepKeeps(b, orders[0]);
      var f := FlowOf(b, orders[0]);
      var g := FlowsOf(Step(b, orders[0]).book, orders[1..]);
      Flow(f.added + g.added, f.executed + g.executed, f.cancelled + g.cancelled)
  }

  lemma StepConserves(b: Book, order: Order)
    requires WellFormed(b)
    ensures var f := FlowOf(b, order);
            TotalShares(Step(b, order).book.nodes) + f.executed + f.cancelled == TotalShares(b.nodes) + f.added
  {
    match order
    case Add(_, id, shares, price, _, _, _, indicator) =>
      if Accepts(b, price) {
        assert b.free[0] in b.free;
        TotalUpdate(b.nodes, b.free[0], Resting(id, SideOf(indicator), price, shares));
      }
    case Execute(_, id, _, shares, _, _) =>
      if id in b.live && shares <= b.nodes[b.live[id]].shares {
        var n := b.live[id];
        var r := Reduce(b, n, shares);
        TotalUpdate(b.nodes, n, r.nodes[n]);
        TotalUpdate(r.nodes, n, Free);
      }
    case Cancel(_, id, _, _, _) =>
      if id in b.live { TotalUpdate(b.nodes, b.live[id], Free); }
  }

  /** Over every run, resting shares are what was added, less what was executed, less
      what was left on orders when they were cancelled. */
  lemma {:induction false} RunConservesShares(b: Book, orders: seq<Order>)
    requires WellFormed(b)
    ensures var f := FlowsOf(b, orders);
            TotalShares(Run(b, orders).nodes) + f.executed + f.cancelled == TotalShares(b.nodes) + f.added
    decreases |orders|
  {
    if orders != [] {
      StepKeeps(b, orders[0]);
      StepConserves(b, orders[0]);
      RunConservesShares(Step(b, orders[0]).book, orders[1..]);
    }
  }

  // ----- best prices

  /** The prices of one side that have a resting order. */
  ghost function Ticks(b: Book, side: Side): set<nat> {
    set p: nat | p < |b.Queues(side)| && b.Queues(side)[p] != []
  }

  lemma TickMeansResting(b: Book, side: Side, p: nat)
    requires Partition(b)
    ensures p in Ticks(b, side) <==> exists n: nat :: b.RestsAt(n, side, p)
  {
    if p in Ticks(b, side) {
      var n := b.Queues(side)[p][0];
      assert n in b.Queues(side)[p];
      assert b.RestsAt(n, side, p);
    }
    if n: nat :| b.RestsAt(n, side, p) {
      assert n in b.Queues(side)[p];
    }
  }

  // ----- how large the table must be

  lemma {:induction false} RunSplit(b: Book, s: seq<Order>, t: seq<Order>)
    requires WellFormed(b)
    ensures WellFormed(Run(b, s)) && Run(b, s + t) == Run(Run(b, s), t)
    decreases |s|
  {
    RunKeeps(b, s);
    if s == [] {
      assert s + t == t;
    } else {
      StepKeeps(b, s[0]);
      assert (s + t)[1..] == s[1..] + t;
      RunSplit(Step(b, s[0]).book, s[1..], t);
    }
  }

  /** One share bought at price 0. */
  function BuyOne(id: u64): Order {
    Add(0, id, 1, 0, 0, 0, [], 0x42)
  }

  /** Orders with the ids below `k`. */
  function FirstIds(k: nat): seq<Order>
    requires k <= 0x1_0000_0000_0000_0000
  {
    if k == 0 then [] else FirstIds(k - 1) + [BuyOne(k - 1)]
  }

  lemma OneMoreId(b: Book, k: u64)
    requires WellFormed(b) && b.free != [] && b.live.Keys == Range(k)
    ensures var b' := Run(b, [BuyOne(k)]);
            b'.live.Keys == Range(k + 1) && |b'.free| == |b.free| - 1
  {
    hide Partition, LiveOk;
    var b' := Step(b, BuyOne(k)).book;
    StepKeeps(b, BuyOne(k));
    assert [BuyOne(k)][1..] == [] && Run(b', []) == b';
    assert b'.live.Keys == b.live.Keys + {k};
  }

  lemma {:induction false} FillPool(maxOrders: nat, k: nat)
    requires k <= maxOrders && k <= 0x1_0000_0000_0000_0000
    ensures WellFormed(Init(maxOrders))
    ensures var b := Run(Init(maxOrders), FirstIds(k));
            b.live.Keys == Range(k) && |b.free| == maxOrders - k
  {
    hide WellFormed, BuyOne, Step;
    InitOk(maxOrders);
    if k == 0 {
      assert Run(Init(maxOrders), []) == Init(maxOrders);
    } else {
      FillPool(maxOrders, k - 1);
      RunSplit(Init(maxOrders), FirstIds(k - 1), [BuyOne(k - 1)]);
      OneMoreId(Run(Init(maxOrders), FirstIds(k - 1)), k - 1);
    }
  }

  /** After these orders, an add that finds a free node finds room in a table of `capacity`
      buckets. */
  ghost predicate RoomAfter(maxOrders: nat, orders: seq<Order>, capacity: nat) {
    InitOk(maxOrders);
    var b := Run(Init(maxOrders), orders);
    b.free != [] ==> |b.live| < capacity
  }

  lemma PoolSizeBounds(maxOrders: nat, orders: seq<Order>)
    ensures RoomAfter(maxOrders, orders, maxOrders)
  {
    EveryRunPartitionsPool(maxOrders, orders);
  }

  /** A table never fills before the pool if and only if it is as large as the pool. */
  lemma TableSufficesIff(maxOrders: nat, capacity: nat)
    requires capacity <= 0x1_0000_0000_0000_0000
    ensures (forall orders :: RoomAfter(maxOrders, orders, capacity)) <==> maxOrders <= capacity
  {
    if maxOrders <= capacity {
      forall orders ensures RoomAfter(maxOrders, orders, capacity) {
        PoolSizeBounds(maxOrders, orders);
      }
    } else {
      FillPool(maxOrders, capacity);
      RangeSize(capacity);
      assert |Run(Init(maxOrders), FirstIds(capacity)).live.Keys| == capacity;
      assert !RoomAfter(maxOrders, FirstIds(capacity), capacity);
    }
  }
}
