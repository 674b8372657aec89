/** The reference book of the differential test: orders by id, and per side and price an
    arrival-ordered list of ids. It is what the fast book is meant to be.
 */
module SimpleBook {
  import opened Bits
  import opened Orders
  import opened ListBook
  import opened BookRuns
  import opened Collections

  datatype Entry = Entry(side: Side, price: nat, shares: u32)

  /** A price without orders has no entry in `bids` or `asks`. */
  datatype Simple = Simple(
    capacity: nat,
    orders: map<u64, Entry>,
    bids: map<nat, seq<u64>>,
    asks: map<nat, seq<u64>>)
  {
    function Levels(side: Side): map<nat, seq<u64>> {
      if side == Buy then bids else asks
    }
  }

  datatype SimpleOutcome = SimpleOutcome(book: Simple, ok: bool)

  function IdsAt(levels: map<nat, seq<u64>>, price: nat): seq<u64> {
    if price in levels then levels[price] else []
  }

  function SetIds(levels: map<nat, seq<u64>>, price: nat, ids: seq<u64>): map<nat, seq<u64>> {
    if ids == [] then levels - {price} else levels[price := ids]
  }

  function SetLevel(s: Simple, side: Side, price: nat, ids: seq<u64>): Simple {
    if side == Buy then s.(bids := SetIds(s.bids, price, ids)) else s.(asks := SetIds(s.asks, price, ids))
  }

  /** `std::list::remove`. */
  function RemoveAll(ids: seq<u64>, id: u64): seq<u64> {
    if ids == [] then []
    else if ids[0] == id then RemoveAll(ids[1..], id)
    else [ids[0]] + RemoveAll(ids[1..], id)
  }

  predicate SimpleAccepts(s: Simple, price: nat) {
    price < 100000 && |s.orders| < s.capacity
  }

  function SimpleAdd(s: Simple, id: u64, side: Side, price: nat, shares: u32): Simple {
    if !SimpleAccepts(s, price) then s
    else SetLevel(s, side, price, IdsAt(s.Levels(side), price) + [id])
           .(orders := s.orders[id := Entry(side, price, shares)])
  }

  function SimpleCancel(s: Simple, id: u64): Simple {
    if id !in s.orders then s
    else
      var e := s.orders[id];
      SetLevel(s, e.side, e.price, RemoveAll(IdsAt(s.Levels(e.side), e.price), id))
        .(orders := s.orders - {id})
  }

  function SimpleExecute(s: Simple, id: u64, shares: u32): SimpleOutcome {
    if id !in s.orders then SimpleOutcome(s, true)
    else
      var e := s.orders[id];
      if e.shares < shares then SimpleOutcome(s, false)
      else
        var s' := s.(orders := s.orders[id := e.(shares := e.shares - shares)]);
        SimpleOutcome(if e.shares == shares then SimpleCancel(s', id) else s', true)
  }

  function SimpleStep(s: Simple, order: Order): SimpleOutcome {
    match order
    case Add(_, id, shares, price, _, _, _, indicator) =>
      SimpleOutcome(SimpleAdd(s, id, if indicator == 0x42 then Buy else Sell, price, shares), true)
    case Execute(_, id, _, shares, _, _) => SimpleExecute(s, id, shares)
    case Cancel(_, id, _, _, _) => SimpleOutcome(SimpleCancel(s, id), true)
  }

  function SimpleRun(s: Simple, orders: seq<Order>): Simple
    decreases |orders|
  {
    if orders == [] then s else SimpleRun(SimpleStep(s, orders[0]).book, orders[1..])
  }

  function SimpleDispatch(s: Simple, orders: seq<Order>): SimpleOutcome
    decreases |orders|
  {
    if orders == [] then SimpleOutcome(s, true)
    else
      var next := SimpleStep(s, orders[0]);
      if !next.ok then next else SimpleDispatch(next.book, orders[1..])
  }

  function SimpleInit(capacity: nat): Simple {
    Simple(capacity, map[], map[], map[])
  }

  // ----- the abstraction

  predicate AllResting(nodes: seq<Node>, q: seq<nat>) {
    forall i :: 0 <= i < |q| ==> q[i] < |nodes| && nodes[q[i]].Resting?
  }

  function Ids(nodes: seq<Node>, q: seq<nat>): (ids: seq<u64>)
    requires AllResting(nodes, q)
    ensures |ids| == |q| && forall i :: 0 <= i < |q| ==> ids[i] == nodes[q[i]].id
  {
    seq(|q|, i requires 0 <= i < |q| => nodes[q[i]].id)
  }

  lemma QueueRests(b: Book, side: Side, p: nat)
    requires Partition(b) && p < MAX_TICKS
    ensures AllResting(b.nodes, b.Queues(side)[p])
  {
    var q := b.Queues(side)[p];
    forall i | 0 <= i < |q| ensures b.RestsAt(q[i], side, p) {
      assert q[i] in q;
    }
  }

  ghost function AbsLevels(b: Book, side: Side): (m: map<nat, seq<u64>>)
    requires Partition(b)
  {
    map p | p in Ticks(b, side) :: QueueRests(b, side, p); Ids(b.nodes, b.Queues(side)[p])
  }

  ghost function AbsOrders(b: Book): map<u64, Entry>
    requires LiveOk(b)
  {
    map id | id in b.live :: var n := b.nodes[b.live[id]]; Entry(n.side, n.price, n.shares)
  }

  /** The simple book that a list book stands for. */
  ghost function Abs(b: Book): Simple
    requires WellFormed(b)
  {
    Simple(|b.nodes|, AbsOrders(b), AbsLevels(b, Buy), AbsLevels(b, Sell))
  }

  lemma IdsAtAbs(b: Book, side: Side, p: nat)
    requires Partition(b) && p < MAX_TICKS
    ensures AllResting(b.nodes, b.Queues(side)[p])
    ensures IdsAt(AbsLevels(b, side), p) == Ids(b.nodes, b.Queues(side)[p])
  {
    QueueRests(b, side, p);
  }

  // ----- refinement, operation by operation

  lemma CapacityAgrees(b: Book)
    requires WellFormed(b) && IdsUnique(b)
    ensures |AbsOrders(b)| < |b.nodes| <==> b.free != []
  {
    assert AbsOrders(b).Keys == b.live.Keys;
    PoolConserved(b);
    LiveInjective(b);
  }

  /** The nodes queued in `b` at one price still rest in `b'`, under the same ids. */
  ghost predicate KeepsIds(b: Book, b': Book, side: Side, p: nat)
    requires p < |b.Queues(side)|
  {
    forall n: nat :: n in b.Queues(side)[p] ==>
      && n < |b.nodes| && b.nodes[n].Resting?
      && n < |b'.nodes| && b'.nodes[n].Resting? && b'.nodes[n].id == b.nodes[n].id
  }

  lemma SameIds(b: Book, b': Book, side: Side, p: nat)
    requires Partition(b) && Partition(b') && p < MAX_TICKS
    requires KeepsIds(b, b', side, p) && b'.Queues(side)[p] == b.Queues(side)[p]
    ensures IdsAt(AbsLevels(b', side), p) == IdsAt(AbsLevels(b, side), p)
    ensures p in AbsLevels(b', side) <==> p in AbsLevels(b, side)
  {
    IdsAtAbs(b, side, p);
    IdsAtAbs(b', side, p);
    var q := b.Queues(side)[p];
    assert forall i :: 0 <= i < |q| ==> q[i] in q;
    assert Ids(b'.nodes, q) == Ids(b.nodes, q);
  }

  /** A queue rewritten at one price, every other queue keeping its nodes and ids, is the
      same rewrite of the id lists. */
  lemma LevelRewritten(b: Book, b': Book, side: Side, price: nat)
    requires Partition(b) && Partition(b') && price < MAX_TICKS
    requires forall p :: 0 <= p < MAX_TICKS && p != price ==>
               KeepsIds(b, b', side, p) && b'.Queues(side)[p] == b.Queues(side)[p]
    ensures AllResting(b'.nodes, b'.Queues(side)[price])
    ensures AbsLevels(b', side) ==
            SetIds(AbsLevels(b, side), price, Ids(b'.nodes, b'.Queues(side)[price]))
  {
    var m, m' := AbsLevels(b, side), AbsLevels(b', side);
    IdsAtAbs(b', side, price);
    var r := SetIds(m, price, Ids(b'.nodes, b'.Queues(side)[price]));
    forall p | 0 <= p < MAX_TICKS && p != price
      ensures p in m' <==> p in m
      ensures IdsAt(m', p) == IdsAt(m, p)
    {
      SameIds(b, b', side, p);
    }
    assert m'.Keys == r.Keys;
  }

  lemma LevelsUntouched(b: Book, b': Book, side: Side)
    requires Partition(b) && Partition(b')
    requires forall p :: 0 <= p < MAX_TICKS ==>
               KeepsIds(b, b', side, p) && b'.Queues(side)[p] == b.Queues(side)[p]
    ensures AbsLevels(b', side) == AbsLevels(b, side)
  {
    var m, m' := AbsLevels(b, side), AbsLevels(b', side);
    forall p | 0 <= p < MAX_TICKS
      ensures p in m' <==> p in m
      ensures IdsAt(m', p) == IdsAt(m, p)
    {
      SameIds(b, b', side, p);
    }
    assert m'.Keys == m.Keys;
  }

  /** Changing one node leaves alone every queue the node is not in. */
  lemma OthersKeepIds(b: Book, b': Book, n: nat, side: Side, p: nat)
    requires Partition(b) && p < MAX_TICKS && n < |b.nodes| == |b'.nodes|
    requires b'.nodes == b.nodes[n := b'.nodes[n]]
    requires !b.RestsAt(n, side, p)
    ensures KeepsIds(b, b', side, p)
  {
    assert forall m: nat :: m in b.Queues(side)[p] <==> b.RestsAt(m, side, p);
  }

  function Opposite(side: Side): Side {
    if side == Buy then Sell else Buy
  }

  lemma AddLevels(b: Book, id: u64, side: Side, price: nat, shares: u32)
    requires WellFormed(b) && Accepts(b, price)
    ensures var b' := AddOrder(b, id, side, price, shares);
            && WellFormed(b')
            && |b'.nodes| == |b.nodes|
            && AbsLevels(b', side) == SetIds(AbsLevels(b, side), price, IdsAt(AbsLevels(b, side), price) + [id])
            && AbsLevels(b', Opposite(side)) == AbsLevels(b, Opposite(side))
  {
    var b', n, q := AddOrder(b, id, side, price, shares), b.free[0], b.Queues(side)[price];
    assert n in b.free;
    AddKeeps(b, id, side, price, shares);
    forall s: Side, p | 0 <= p < MAX_TICKS ensures KeepsIds(b, b', s, p) {
      OthersKeepIds(b, b', n, s, p);
    }
    LevelRewritten(b, b', side, price);
    LevelsUntouched(b, b', Opposite(side));
    IdsAtAbs(b, side, price);
    assert forall i :: 0 <= i < |q| ==> q[i] in q;
    assert Ids(b'.nodes, q + [n]) == Ids(b.nodes, q) + [id];
  }

  lemma AddOrders(b: Book, id: u64, side: Side, price: nat, shares: u32)
    requires WellFormed(b) && IdsUnique(b) && Accepts(b, price) && id !in b.live
    ensures var b' := AddOrder(b, id, side, price, shares);
            && LiveOk(b') && IdsUnique(b')
            && AbsOrders(b') == AbsOrders(b)[id := Entry(side, price, shares)]
  {
    var b', n := AddOrder(b, id, side, price, shares), b.free[0];
    assert n in b.free;
    AddKeeps(b, id, side, price, shares);
  }

  lemma AddRefines(b: Book, id: u64, side: Side, price: nat, shares: u32)
    requires WellFormed(b) && IdsUnique(b)
    requires Accepts(b, price) ==> id !in b.live
    ensures var b' := AddOrder(b, id, side, price, shares);
            WellFormed(b') && IdsUnique(b') && Abs(b') == SimpleAdd(Abs(b), id, side, price, shares)
  {
    CapacityAgrees(b);
    if Accepts(b, price) {
      hide Partition, AbsLevels;
      AddLevels(b, id, side, price, shares);
      AddOrders(b, id, side, price, shares);
    }
  }

  lemma {:induction false} RemoveAbsent(ids: seq<u64>, id: u64)
    requires id !in ids
    ensures RemoveAll(ids, id) == ids
  {
    if ids != [] { RemoveAbsent(ids[1..], id); }
  }

  lemma {:induction false} RemoveAt(ids: seq<u64>, k: nat)
    requires k < |ids| && NoDup(ids)
    ensures RemoveAll(ids, ids[k]) == Without(ids, k)
  {
    if k == 0 {
      RemoveAbsent(ids[1..], ids[0]);
    } else {
      RemoveAt(ids[1..], k - 1);
      assert Without(ids, k) == [ids[0]] + Without(ids[1..], k - 1);
    }
  }

  lemma QueuedIdsDiffer(b: Book, side: Side, p: nat)
    requires WellFormed(b) && IdsUnique(b) && p < MAX_TICKS
    ensures AllResting(b.nodes, b.Queues(side)[p]) && NoDup(Ids(b.nodes, b.Queues(side)[p]))
  {
    QueueRests(b, side, p);
    var q := b.Queues(side)[p];
    forall i, j | 0 <= i < j < |q| ensures Ids(b.nodes, q)[i] != Ids(b.nodes, q)[j] {
      assert b.live[b.nodes[q[i]].id] == q[i] && b.live[b.nodes[q[j]].id] == q[j];
    }
  }

  lemma RestingId(nodes: seq<Node>, q: seq<nat>, k: nat)
    requires AllResting(nodes, q) && k < |q|
    ensures q[k] < |nodes| && nodes[q[k]].Resting? && Ids(nodes, q)[k] == nodes[q[k]].id
  {
  }

  lemma IdsWithout(nodes: seq<Node>, q: seq<nat>, k: nat)
    requires AllResting(nodes, q) && NoDup(q) && k < |q|
    ensures var nodes' := nodes[q[k] := Free];
            && AllResting(nodes', Without(q, k))
            && Ids(nodes', Without(q, k)) == Without(Ids(nodes, q), k)
  {
    var nodes', r := nodes[q[k] := Free], Without(q, k);
    forall i | 0 <= i < |r| ensures r[i] < |nodes'| && nodes'[r[i]] == nodes[r[i]] {
      assert r[i] == q[if i < k then i else i + 1];
    }
  }

  lemma ReleaseQueue(b: Book, n: nat)
    requires WellFormed(b) && IdsUnique(b) && n < |b.nodes| && b.nodes[n].Resting?
    ensures var node := b.nodes[n];
            var b' := Release(b, n);
            && WellFormed(b')
            && AllResting(b'.nodes, b'.Queues(node.side)[node.price])
            && Ids(b'.nodes, b'.Queues(node.side)[node.price]) ==
               RemoveAll(IdsAt(AbsLevels(b, node.side), node.price), node.id)
  {
    hide RemoveAll, AbsLevels, IdsAt, LiveOk, AllResting, Ids;
    var node := b.nodes[n];
    ReleaseKeeps(b, n);
    assert b.RestsAt(n, node.side, node.price);
    var q := b.Queues(node.side)[node.price];
    var k := IndexOf(q, n);
    IdsAtAbs(b, node.side, node.price);
    QueuedIdsDiffer(b, node.side, node.price);
    RestingId(b.nodes, q, k);
    RemoveAt(Ids(b.nodes, q), k);
    IdsWithout(b.nodes, q, k);
  }

  lemma ReleaseLevels(b: Book, n: nat)
    requires WellFormed(b) && IdsUnique(b) && n < |b.nodes| && b.nodes[n].Resting?
    ensures var node := b.nodes[n];
            var b' := Release(b, n);
            && WellFormed(b')
            && AbsLevels(b', node.side) ==
               SetIds(AbsLevels(b, node.side), node.price,
                      RemoveAll(IdsAt(AbsLevels(b, node.side), node.price), node.id))
            && AbsLevels(b', Opposite(node.side)) == AbsLevels(b, Opposite(node.side))
  {
    var node, b' := b.nodes[n], Release(b, n);
    ReleaseKeeps(b, n);
    ReleaseQueue(b, n);
    forall s: Side, p | 0 <= p < MAX_TICKS && !(s == node.side && p == node.price)
      ensures KeepsIds(b, b', s, p)
    {
      OthersKeepIds(b, b', n, s, p);
    }
    LevelRewritten(b, b', node.side, node.price);
    LevelsUntouched(b, b', Opposite(node.side));
  }

  lemma ReleaseOrders(b: Book, n: nat)
    requires WellFormed(b) && IdsUnique(b) && n < |b.nodes| && b.nodes[n].Resting?
    ensures var node := b.nodes[n];
            var b' := Release(b, n);
            && LiveOk(b') && |b'.nodes| == |b.nodes|
            && AbsOrders(b') == AbsOrders(b) - {node.id}
            && node.id in AbsOrders(b)
            && AbsOrders(b)[node.id] == Entry(node.side, node.price, node.shares)
  {
    ReleaseKeeps(b, n);
  }

  lemma ReleaseRefines(b: Book, n: nat)
    requires WellFormed(b) && IdsUnique(b) && n < |b.nodes| && b.nodes[n].Resting?
    ensures var b' := Release(b, n);
            WellFormed(b') && IdsUnique(b') && Abs(b') == SimpleCancel(Abs(b), b.nodes[n].id)
  {
    hide Partition, Release, AbsLevels;
    ReleaseKeeps(b, n);
    ReleaseLevels(b, n);
    ReleaseOrders(b, n);
  }

  lemma ReduceRefines(b: Book, n: nat, shares: u32)
    requires WellFormed(b) && IdsUnique(b) && n < |b.nodes| && b.nodes[n].Resting? && shares <= b.nodes[n].shares
    ensures var b', node := Reduce(b, n, shares), b.nodes[n];
            && WellFormed(b') && IdsUnique(b')
            && Abs(b') == Abs(b).(orders := AbsOrders(b)[node.id := Entry(node.side, node.price, node.shares - shares)])
  {
    var b', node := Reduce(b, n, shares), b.nodes[n];
    ReduceKeeps(b, n, shares);
    forall s: Side, p | 0 <= p < MAX_TICKS ensures KeepsIds(b, b', s, p) {
      assert forall m: nat :: m in b.Queues(s)[p] <==> b.RestsAt(m, s, p);
    }
    LevelsUntouched(b, b', Buy);
    LevelsUntouched(b, b', Sell);
    assert AbsOrders(b') == AbsOrders(b)[node.id := Entry(node.side, node.price, node.shares - shares)];
  }

  lemma ExecuteRefines(b: Book, id: u64, shares: u32)
    requires WellFormed(b) && IdsUnique(b)
    ensures var o := ExecuteOrder(b, id, shares);
            && WellFormed(o.book) && IdsUnique(o.book)
            && SimpleExecute(Abs(b), id, shares) == SimpleOutcome(Abs(o.book), o.ok)
  {
    hide Partition, Release, AbsLevels;
    if id in b.live && shares <= b.nodes[b.live[id]].shares {
      var n := b.live[id];
      ReduceRefines(b, n, shares);
      if shares == b.nodes[n].shares { ReleaseRefines(Reduce(b, n, shares), n); }
    }
  }

  /** The condition on the feed: an order that would be accepted carries an id that does
      not rest already. */
  predicate FreshId(s: Simple, order: Order) {
    order.Add? && SimpleAccepts(s, order.price) ==> order.id !in s.orders
  }

  predicate FreshIds(s: Simple, orders: seq<Order>)
    decreases |orders|
  {
    orders == [] || (FreshId(s, orders[0]) && FreshIds(SimpleStep(s, orders[0]).book, orders[1..]))
  }

  lemma StepRefines(b: Book, order: Order)
    requires WellFormed(b) && IdsUnique(b) && FreshId(Abs(b), order)
    ensures var o := Step(b, order);
            && WellFormed(o.book) && IdsUnique(o.book)
            && SimpleStep(Abs(b), order) == SimpleOutcome(Abs(o.book), o.ok)
  {
    CapacityAgrees(b);
    match order
    case Add(_, id, shares, price, _, _, _, indicator) => AddRefines(b, id, SideOf(indicator), price, shares);
    case Execute(_, id, _, shares, _, _) => ExecuteRefines(b, id, shares);
    case Cancel(_, id, _, _, _) => if id in b.live { ReleaseRefines(b, b.live[id]); }
  }

  /** Every run with fresh ids is a run of the simple book. */
  lemma {:induction false} RunRefines(b: Book, orders: seq<Order>)
    requires WellFormed(b) && IdsUnique(b) && FreshIds(Abs(b), orders)
    ensures WellFormed(Run(b, orders)) && IdsUnique(Run(b, orders))
    ensures Abs(Run(b, orders)) == SimpleRun(Abs(b), orders)
    decreases |orders|
  {
    if orders != [] {
      StepRefines(b, orders[0]);
      RunRefines(Step(b, orders[0]).book, orders[1..]);
    }
  }

  lemma RunFromEmpty(maxOrders: nat, orders: seq<Order>)
    requires FreshIds(SimpleInit(maxOrders), orders)
    ensures WellFormed(Init(maxOrders)) && WellFormed(Run(Init(maxOrders), orders))
    ensures Abs(Run(Init(maxOrders), orders)) == SimpleRun(SimpleInit(maxOrders), orders)
  {
    InitOk(maxOrders);
    assert Abs(Init(maxOrders)) == SimpleInit(maxOrders);
    RunRefines(Init(maxOrders), orders);
  }

  /** The same for a run that ends at the first refused execution. */
  lemma {:induction false} DispatchRefines(b: Book, orders: seq<Order>)
    requires WellFormed(b) && IdsUnique(b) && FreshIds(Abs(b), orders)
    ensures var o := Dispatch(b, orders);
            && WellFormed(o.book) && IdsUnique(o.book)
            && SimpleDispatch(Abs(b), orders) == SimpleOutcome(Abs(o.book), o.ok)
    decreases |orders|
  {
    hide WellFormed, IdsUnique, Abs, Step, SimpleStep, FreshId;
    if orders != [] {
      StepRefines(b, orders[0]);
      var next := Step(b, orders[0]);
      if next.ok { DispatchRefines(next.book, orders[1..]); }
    }
  }

  /** The prices with a level in the simple book are the ticks of the fast one. */
  lemma DispatchFromEmpty(maxOrders: nat, orders: seq<Order>)
    requires FreshIds(SimpleInit(maxOrders), orders)
    ensures WellFormed(Init(maxOrders))
    ensures var o := Dispatch(Init(maxOrders), orders);
            var s := SimpleDispatch(SimpleInit(maxOrders), orders);
            && WellFormed(o.book)
            && s == SimpleOutcome(Abs(o.book), o.ok)
            && s.book.bids.Keys == Ticks(o.book, Buy)
            && s.book.asks.Keys == Ticks(o.book, Sell)
  {
    InitOk(maxOrders);
    assert Abs(Init(maxOrders)) == SimpleInit(maxOrders);
    DispatchRefines(Init(maxOrders), orders);
  }

  // ----- the condition is exact

  /** An accepted add keeps ids and nodes in correspondence exactly when its id is fresh. */
  lemma FreshIdIsNeeded(b: Book, id: u64, side: Side, price: nat, shares: u32)
    requires WellFormed(b) && IdsUnique(b) && Accepts(b, price)
    ensures IdsUnique(AddOrder(b, id, side, price, shares)) <==> id !in b.live
  {
    var b', n := AddOrder(b, id, side, price, shares), b.free[0];
    assert n in b.free;
    if id in b.live {
      var m := b.live[id];
      assert m != n && b'.nodes[m] == b.nodes[m];
    }
  }

  lemma {:induction false} RemovedIsGone(ids: seq<u64>, id: u64)
    ensures id !in RemoveAll(ids, id)
  {
    if ids != [] { RemovedIsGone(ids[1..], id); }
  }

  lemma {:induction false} RemoveAppended(ids: seq<u64>, id: u64)
    requires id !in ids
    ensures RemoveAll(ids + [id], id) == ids
  {
    if ids != [] {
      assert (ids + [id])[1..] == ids[1..] + [id];
      RemoveAppended(ids[1..], id);
    }
  }

  /** An id is listed at a side and price exactly when its node rests there. */
  lemma ListedWhereItRests(b: Book, id: u64, side: Side, price: nat)
    requires WellFormed(b) && IdsUnique(b) && id in b.live && price < MAX_TICKS
    ensures id in IdsAt(AbsLevels(b, side), price) <==> b.RestsAt(b.live[id], side, price)
  {
    IdsAtAbs(b, side, price);
    var q := b.Queues(side)[price];
    var ids := Ids(b.nodes, q);
    if id in ids {
      var i :| 0 <= i < |ids| && ids[i] == id;
      assert q[i] in q && b.live[id] == q[i];
    }
    if b.RestsAt(b.live[id], side, price) {
      assert b.live[id] in q;
      assert ids[IndexOf(q, b.live[id])] == id;
    }
  }

  /** The last ids written at a price are those found there; writing back what was there
      before restores the levels. */
  lemma RewriteLevel(levels: map<nat, seq<u64>>, price: nat, ids: seq<u64>, ids': seq<u64>)
    requires price in levels ==> levels[price] != []
    ensures IdsAt(SetIds(SetIds(levels, price, ids), price, ids'), price) == ids'
    ensures ids' == IdsAt(levels, price) ==> SetIds(SetIds(levels, price, ids), price, ids') == levels
  {
    if ids' == IdsAt(levels, price) {
      assert SetIds(SetIds(levels, price, ids), price, ids') == levels;
    }
  }

  lemma AppendedLevel(levels: map<nat, seq<u64>>, price: nat, ids: seq<u64>)
    ensures IdsAt(SetIds(levels, price, ids), price) == ids
  {
  }

  /** Add and cancel of one id rewrite one level twice and forget the id. */
  lemma SimpleAddCancel(s: Simple, id: u64, side: Side, price: nat, shares: u32)
    requires SimpleAccepts(s, price)
    ensures var ids := IdsAt(s.Levels(side), price) + [id];
            SimpleCancel(SimpleAdd(s, id, side, price, shares), id) ==
            SetLevel(SetLevel(s, side, price, ids), side, price, RemoveAll(ids, id)).(orders := s.orders - {id})
  {
    hide RemoveAll, SetIds, IdsAt;
    var ids := IdsAt(s.Levels(side), price) + [id];
    AppendedLevel(s.Levels(side), price, ids);
    var s1 := SimpleAdd(s, id, side, price, shares);
    assert s1.Levels(side) == SetIds(s.Levels(side), price, ids);
    assert s1.orders[id] == Entry(side, price, shares);
    assert s1.orders - {id} == s.orders - {id};
  }

  lemma ForgottenId(b: Book, id: u64)
    requires WellFormed(b) && WellFormed(b.(live := b.live - {id}))
    ensures Abs(b.(live := b.live - {id})) == Abs(b).(orders := AbsOrders(b) - {id})
  {
    var b' := b.(live := b.live - {id});
    assert AbsOrders(b') == AbsOrders(b) - {id};
    LevelsUntouched(b, b', Buy);
    LevelsUntouched(b, b', Sell);
  }

  /** Re-adding a resting id and then cancelling it: the book agrees with the simple book
      afterwards exactly when the add was not at the side and price where the id rested. */
  lemma CancelAfterReuse(b: Book, id: u64, side: Side, price: nat, shares: u32)
    requires WellFormed(b) && IdsUnique(b) && id in b.live && Accepts(b, price)
    ensures var b1 := AddOrder(b, id, side, price, shares);
            && WellFormed(b1)
            && WellFormed(CancelOrder(b1, id))
            && (Abs(CancelOrder(b1, id)) == SimpleCancel(SimpleAdd(Abs(b), id, side, price, shares), id)
                <==> !b.RestsAt(b.live[id], side, price))
  {
    hide QueuesOk, AddOrder, CancelOrder, RemoveAll, SimpleAdd, SimpleCancel, SetIds, IdsAt;
    CapacityAgrees(b);
    CancelUndoesAdd(b, id, side, price, shares);
    ListedWhereItRests(b, id, side, price);
    ForgottenId(b, id);
    var ids := IdsAt(AbsLevels(b, side), price);
    IdsAtAbs(b, side, price);
    SimpleAddCancel(Abs(b), id, side, price, shares);
    RewriteLevel(AbsLevels(b, side), price, ids + [id], RemoveAll(ids + [id], id));
    RemovedIsGone(ids + [id], id);
    if id !in ids { RemoveAppended(ids, id); }
  }
}
