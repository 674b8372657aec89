/** `LimitOrderBook`: the pool, the price levels, the id map and the two bitsets, updated
    in place. Every operation is proved to be the list operation of `ListBook`.
 */
module LimitOrderBook {
  import opened Bits
  import opened Collections
  import opened Orders
  import opened ListBook
  import opened BookRuns
  import opened BookLinks
  import OrderMap
  import Bitset

  const SIDE_MASK: u32 := 0x8000_0000
  const INDEX_MASK: u32 := 0x7FFF_FFFF
  const ORDER_MAP_SIZE: nat := 0x40_0000 // 2 << 21

  // ----- side-tagged indices

  /** `tagged_idx | new_order_idx`. */
  function Tag(side: Side, n: u32): (t: u32)
    requires n < SIDE_MASK
    ensures t == if side == Buy then n else SIDE_MASK + n
  {
    Pow2Literals();
    OrPow2(31, n);
    Or(if side == Buy then 0 else SIDE_MASK, n)
  }

  function IndexOfTag(t: u32): (n: u32) {
    AndBelow(t, INDEX_MASK);
    And(t, INDEX_MASK)
  }

  predicate IsSell(t: u32) {
    And(t, SIDE_MASK) != 0
  }

  lemma TagRoundTrip(side: Side, n: u32)
    requires n < SIDE_MASK
    ensures IndexOfTag(Tag(side, n)) == n
    ensures IsSell(Tag(side, n)) <==> side == Sell
  {
    Pow2Literals();
    hide And, Or, Pow2, Tag;
    SplitTag(31, Tag(side, n));
  }

  /** What the id map holds for a book. */
  ghost function Tagged(b: Book): map<u64, u32>
    requires LiveOk(b) && |b.nodes| <= SIDE_MASK
  {
    map id | id in b.live :: Tag(b.nodes[b.live[id]].side, b.live[id])
  }

  lemma AddTagged(b: Book, id: u64, side: Side, price: nat, shares: u32)
    requires WellFormed(b) && |b.nodes| <= SIDE_MASK && Accepts(b, price)
    ensures var b' := AddOrder(b, id, side, price, shares);
            && LiveOk(b') && |b'.nodes| == |b.nodes| && b.free[0] < |b.nodes|
            && Tagged(b') == Tagged(b)[id := Tag(side, b.free[0])]
  {
    hide Tag, QueuesOk;
    AddKeeps(b, id, side, price, shares);
    assert b.free[0] in b.free;
  }

  lemma ReleaseTagged(b: Book, n: nat)
    requires WellFormed(b) && |b.nodes| <= SIDE_MASK && n < |b.nodes| && b.nodes[n].Resting?
    requires b.nodes[n].id in b.live && b.live[b.nodes[n].id] == n
    ensures var b' := Release(b, n);
            && LiveOk(b') && |b'.nodes| == |b.nodes|
            && Tagged(b') == Tagged(b) - {b.nodes[n].id}
  {
    ReleaseKeeps(b, n);
  }

  lemma AddTicks(b: Book, id: u64, side: Side, price: nat, shares: u32, s: Side)
    requires WellFormed(b) && Accepts(b, price)
    ensures Ticks(AddOrder(b, id, side, price, shares), s) == Ticks(b, s) + if s == side then {price} else {}
  {
  }

  lemma ReleaseTicks(b: Book, n: nat, s: Side)
    requires WellFormed(b) && n < |b.nodes| && b.nodes[n].Resting?
    ensures var b', node := Release(b, n), b.nodes[n];
            Ticks(b', s) == Ticks(b, s) - if s == node.side && b'.Queues(s)[node.price] == [] then {node.price} else {}
  {
    var b', node := Release(b, n), b.nodes[n];
    assert b.RestsAt(n, node.side, node.price);
    var q := b.Queues(node.side)[node.price];
    assert q != [];
    assert b'.Queues(s) == if s == node.side then b.Queues(s)[node.price := Without(q, IndexOf(q, n))] else b.Queues(s);
  }

  /** Each node points at the next one, the last at null. */
  ghost predicate Threaded(pool: seq<PoolOrder>) {
    forall k :: 0 <= k < |pool| ==> pool[k].next == if k + 1 < |pool| then k + 1 else NULL_INDEX
  }

  ghost predicate NullLevels(levels: seq<PriceLevel>) {
    && |levels| == MAX_TICKS
    && forall p :: 0 <= p < |levels| ==> levels[p] == PriceLevel(NULL_INDEX, NULL_INDEX)
  }

  lemma InitRepresented(a: Arrays, maxOrders: nat)
    requires 0 < maxOrders == |a.pool| < NULL_INDEX && a.nextFree == 0
    requires Threaded(a.pool) && NullLevels(a.bids) && NullLevels(a.asks)
    ensures Represents(a, Init(maxOrders))
    ensures forall s: Side :: Ticks(Init(maxOrders), s) == {}
    ensures Init(maxOrders).live == map[] && LiveOk(Init(maxOrders))
    ensures |Init(maxOrders).nodes| == maxOrders
  {
    var b := Init(maxOrders);
    forall i | 0 <= i < |b.free| ensures FreeAt(a.pool, b.free, i) {
    }
    forall s: Side ensures LevelsLinked(a, b, s) && Ticks(b, s) == {} {
    }
  }

  /** The constructor's loop. */
  method NewPool(maxOrders: nat) returns (pool: array<PoolOrder>)
    requires 0 < maxOrders < NULL_INDEX
    ensures fresh(pool) && pool.Length == maxOrders && Threaded(pool[..])
  {
    pool := new PoolOrder[maxOrders](_ => PoolOrder(0, 0, 0, 0, 0));
    for i := 1 to maxOrders
      invariant forall k :: 0 <= k < i - 1 ==> pool[k].next == k + 1
    {
      pool[i - 1] := pool[i - 1].(next := i);
    }
    pool[maxOrders - 1] := pool[maxOrders - 1].(next := NULL_INDEX);
  }

  method NewLevels() returns (levels: array<PriceLevel>)
    ensures fresh(levels) && NullLevels(levels[..])
  {
    levels := new PriceLevel[MAX_TICKS](_ => PriceLevel(NULL_INDEX, NULL_INDEX));
  }

  lemma TailNull(a: Arrays, b: Book, side: Side, price: nat)
    requires WellFormed(b) && Represents(a, b) && price < MAX_TICKS
    ensures |a.Levels(side)| == MAX_TICKS
    ensures a.Levels(side)[price].tail == NULL_INDEX <==> b.Queues(side)[price] == []
  {
    assert LevelsLinked(a, b, side);
    var q := b.Queues(side)[price];
    if q != [] { assert LinkedAt(a.pool, q, |q| - 1); }
  }

  /** A stored tag decodes to the side and index of a resting node with that id. */
  lemma FindPlan(a: Arrays, b: Book, id: u64)
    requires WellFormed(b) && Represents(a, b) && id in b.live && |a.pool| <= SIDE_MASK
    ensures |b.nodes| == |a.pool|
    ensures id in Tagged(b) && var t := Tagged(b)[id];
            && IndexOfTag(t) == b.live[id]
            && RestsIn(b, b.live[id], if IsSell(t) then Sell else Buy)
            && b.nodes[b.live[id]].id == id
  {
    TagRoundTrip(b.nodes[b.live[id]].side, b.live[id]);
  }

  lemma PoolId(a: Arrays, b: Book, n: nat)
    requires Represents(a, b) && n < |b.nodes| && b.nodes[n].Resting?
    ensures |a.pool| == |b.nodes| && a.pool[n].id == b.nodes[n].id
  {
  }

  lemma ReduceReady(a: Arrays, b: Book, n: u32)
    requires Represents(a, b) && n < |b.nodes| && b.nodes[n].Resting?
    ensures n < |a.pool| && a.pool[n].shares == b.nodes[n].shares
  {
  }

  lemma ReducePlan(a: Arrays, b: Book, n: u32, shares: u32)
    requires WellFormed(b) && Represents(a, b) && |a.pool| <= SIDE_MASK
    requires n < |b.nodes| && b.nodes[n].Resting? && shares <= b.nodes[n].shares
    ensures n < |a.pool| == |b.nodes| && a.pool[n].shares == b.nodes[n].shares
    ensures var b' := Reduce(b, n, shares);
            && WellFormed(b') && |b'.nodes| == |b.nodes|
            && Represents(a.(pool := a.pool[n := a.pool[n].(shares := a.pool[n].shares - shares)]), b')
            && Tagged(b') == Tagged(b)
            && Ticks(b', Buy) == Ticks(b, Buy)
            && Ticks(b', Sell) == Ticks(b, Sell)
  {
    ReduceRepresents(a, b, n, shares);
    ReduceKeeps(b, n, shares);
  }

  lemma NotSelfLinked(a: Arrays, b: Book, side: Side, n: u32)
    requires WellFormed(b) && Represents(a, b) && RestsIn(b, n, side) && n < |a.pool|
    ensures a.pool[n].prev != n && a.pool[n].next != n
  {
    var price := b.nodes[n].price;
    assert b.RestsAt(n, side, price);
    var q := b.Queues(side)[price];
    var k := IndexOf(q, n);
    assert LevelsLinked(a, b, side);
    assert LinkedAt(a.pool, q, k);
    assert k > 0 ==> q[k - 1] != q[k];
    assert k + 1 < |q| ==> q[k] != q[k + 1];
  }

  lemma HeadNull(a: Arrays, b: Book, side: Side, price: nat)
    requires WellFormed(b) && Represents(a, b) && price < MAX_TICKS
    ensures |a.Levels(side)| == MAX_TICKS
    ensures a.Levels(side)[price].head == NULL_INDEX <==> b.Queues(side)[price] == []
  {
    assert LevelsLinked(a, b, side);
    var q := b.Queues(side)[price];
    if q != [] { assert LinkedAt(a.pool, q, 0); }
  }

  /** Everything a release changes, side by side. */
  lemma ReleasePlan(a: Arrays, b: Book, side: Side, n: u32)
    requires WellFormed(b) && Represents(a, b) && RestsIn(b, n, side) && |a.pool| <= SIDE_MASK
    requires b.nodes[n].id in b.live && b.live[b.nodes[n].id] == n
    ensures |b.nodes| == |a.pool| && |a.bids| == |a.asks| == MAX_TICKS
    ensures Partition(b) && n < |b.nodes| && b.nodes[n].Resting?
    ensures n < |a.pool| && LinksInPool(a.pool, a.pool[n])
    ensures a.pool[n].prev != n && a.pool[n].next != n
    ensures a.pool[n].id == b.nodes[n].id && a.pool[n].price == b.nodes[n].price < MAX_TICKS
    ensures var b', price := Release(b, n), b.nodes[n].price;
            var a' := ReleaseArrays(a, side, n);
            && WellFormed(b') && |b'.nodes| == |b.nodes|
            && Represents(a', b')
            && Tagged(b') == Tagged(b) - {b.nodes[n].id}
            && |a'.bids| == |a'.asks| == MAX_TICKS
            && Ticks(b', Buy) == Ticks(b, Buy)
                 - (if side == Buy && a'.bids[price].head == NULL_INDEX then {price} else {})
            && Ticks(b', Sell) == Ticks(b, Sell)
                 - (if side == Sell && a'.asks[price].head == NULL_INDEX then {price} else {})
  {
    ReleaseReady(a, b, side, n);
    NotSelfLinked(a, b, side, n);
    ReleaseRepresents(a, b, side, n);
    ReleaseKeeps(b, n);
    ReleaseTagged(b, n);
    ReleaseTicks(b, n, Buy);
    ReleaseTicks(b, n, Sell);
    HeadNull(ReleaseArrays(a, side, n), Release(b, n), side, b.nodes[n].price);
    hide Release, Tagged, Ticks, WellFormed, LinksInPool, Unlink;
  }

  /** A release is the unlink followed by the push on the free list. */
  lemma ReleaseSplit(a: Arrays, side: Side, n: u32)
    requires n < |a.pool| && LinksInPool(a.pool, a.pool[n]) && a.pool[n].price < |a.Levels(side)|
    requires a.pool[n].prev != n && a.pool[n].next != n
    ensures Unlink(a.pool, a.pool[n])[n] == a.pool[n]
  {
  }

  lemma FreeHead(a: Arrays, b: Book)
    requires Represents(a, b)
    ensures a.nextFree == NULL_INDEX <==> b.free == []
  {
    if b.free != [] { assert FreeAt(a.pool, b.free, 0); }
  }

  /** While a node is free, the table has fewer entries than the pool has nodes. */
  lemma TaggedRoom(b: Book)
    requires WellFormed(b) && b.free != [] && |b.nodes| <= SIDE_MASK
    ensures |Tagged(b)| < |b.nodes|
  {
    RoomForId(b);
    assert Tagged(b).Keys == b.live.Keys;
    assert |Tagged(b)| == |Tagged(b).Keys| && |b.live| == |b.live.Keys|;
  }

  /** Everything an accepted add changes, side by side. */
  lemma AddPlan(a: Arrays, b: Book, id: u64, side: Side, price: u32, shares: u32)
    requires WellFormed(b) && Represents(a, b) && Accepts(b, price) && |a.pool| <= SIDE_MASK
    ensures |b.nodes| == |a.pool| && a.nextFree == b.free[0] < |a.pool|
    ensures price < MAX_TICKS == |a.bids| == |a.asks|
    ensures var tail := a.Levels(side)[price].tail; tail == NULL_INDEX || tail < |a.pool|
    ensures |Tagged(b)| < |a.pool|
    ensures var b' := AddOrder(b, id, side, price, shares);
            && WellFormed(b') && |b'.nodes| == |b.nodes|
            && Represents(AddArrays(a, id, side, price, shares), b')
            && Tagged(b') == Tagged(b)[id := Tag(side, a.nextFree)]
            && Ticks(b', Buy) == Ticks(b, Buy) + (if side == Buy then {price as nat} else {})
            && Ticks(b', Sell) == Ticks(b, Sell) + (if side == Sell then {price as nat} else {})
  {
    hide AddArrays, Ticks, Tagged;
    AddReady(a, b, side, price);
    AddRepresents(a, b, id, side, price, shares);
    AddKeeps(b, id, side, price, shares);
    AddTagged(b, id, side, price, shares);
    AddTicks(b, id, side, price, shares, Buy);
    AddTicks(b, id, side, price, shares, Sell);
    TaggedRoom(b);
  }

  class LimitOrderBook {
    const pool: array<PoolOrder>
    const bids: array<PriceLevel>
    const asks: array<PriceLevel>
    const orders: OrderMap.StaticOrderMap
    const bidsBitset: Bitset.HierarchicalBitset
    const asksBitset: Bitset.HierarchicalBitset
    var nextFreeIndex: u32
    ghost var book: Book

    ghost function Repr(): set<object> {
      {this, pool, bids, asks, orders, orders.buckets,
       bidsBitset, bidsBitset.first, bidsBitset.second,
       asksBitset, asksBitset.first, asksBitset.second}
    }

    ghost function View(): Arrays
      reads this, pool, bids, asks
    {
      Arrays(pool[..], nextFreeIndex, bids[..], asks[..])
    }

    ghost predicate Separate() {
      && bids != asks
      && bidsBitset != asksBitset
      && {bidsBitset.first, bidsBitset.second} !! {asksBitset.first, asksBitset.second}
    }

    ghost predicate Valid()
      reads Repr()
    {
      && Separate()
      && pool.Length <= orders.capacity == ORDER_MAP_SIZE
      && WellFormed(book)
      && Represents(View(), book)
      && orders.Valid() && orders.Contents() == Tagged(book)
      && bidsBitset.Valid() && bidsBitset.maxTicks == MAX_TICKS && bidsBitset.ticks == Ticks(book, Buy)
      && asksBitset.Valid() && asksBitset.maxTicks == MAX_TICKS && asksBitset.ticks == Ticks(book, Sell)
    }

    /** An empty book over a pool of `maxOrders` nodes, all on the free list in order. */
    constructor (maxOrders: nat)
      requires 0 < maxOrders <= 0x40_0000
      ensures Valid() && fresh(Repr())
      ensures book == Init(maxOrders)
    {
      Pow2Small();
      hide WellFormed, Represents, Init, Ticks, OrderMap.Represents, OrderMap.Entries, Bitset.Levels, Pow2, Threaded, NullLevels;
      var nodes := NewPool(maxOrders);
      pool := nodes;
      var bidLevels := NewLevels();
      var askLevels := NewLevels();
      bids, asks := bidLevels, askLevels;
      orders := new OrderMap.StaticOrderMap(22, ORDER_MAP_SIZE);
      bidsBitset := new Bitset.HierarchicalBitset(MAX_TICKS);
      asksBitset := new Bitset.HierarchicalBitset(MAX_TICKS);
      nextFreeIndex := 0;
      book := Init(maxOrders);
      new;
      InitOk(maxOrders);
      InitRepresented(View(), maxOrders);
    }

    /** Appends node `n` to the level at `price`. */
    method AddUpdatePriceLevel(levels: array<PriceLevel>, price: nat, n: u32)
      requires price < levels.Length && n < pool.Length < NULL_INDEX
      requires levels[price].tail == NULL_INDEX || levels[price].tail < pool.Length
      modifies pool, levels
      ensures pool[..] == Append(old(pool[..]), old(levels[price].tail), n)
      ensures levels[..] == old(levels[..])[price := PriceLevel(if old(levels[price].head) == NULL_INDEX then n else old(levels[price].head), n)]
    {
      ghost var p0, tail := pool[..], levels[price].tail;
      pool[n] := pool[n].(prev := NULL_INDEX);
      pool[n] := pool[n].(next := NULL_INDEX);
      if levels[price].head == NULL_INDEX {
        levels[price] := levels[price].(head := n);
      }
      if levels[price].tail != NULL_INDEX {
        pool[levels[price].tail] := pool[levels[price].tail].(next := n);
        pool[n] := pool[n].(prev := levels[price].tail);
      }
      levels[price] := levels[price].(tail := n);
      forall k | 0 <= k < pool.Length ensures pool[k] == Append(p0, tail, n)[k] {
      }
    }

    /** Takes the first free node off the free list, fills it and indexes its id. */
    method TakeNode(side: Side, id: u64, price: u32, shares: u32) returns (n: u32, ok: bool)
      requires nextFreeIndex < pool.Length <= SIDE_MASK
      requires orders.Valid() && |orders.Contents()| < orders.capacity
      modifies this`nextFreeIndex, pool, orders, orders.buckets
      ensures ok && n == old(nextFreeIndex) && nextFreeIndex == old(pool[nextFreeIndex].next)
      ensures pool[..] == old(pool[..])[n := old(pool[..])[n].(id := id, price := price, shares := shares)]
      ensures orders.Valid() && orders.Contents() == old(orders.Contents())[id := Tag(side, n)]
    {
      hide Tag, OrderMap.StaticOrderMap.Valid, OrderMap.StaticOrderMap.Contents;
      n := nextFreeIndex;
      nextFreeIndex := pool[n].next;
      pool[n] := pool[n].(id := id, price := price, shares := shares);
      ok := orders.Assign(id, Tag(side, n));
    }

    method LinkOrder(side: Side, price: u32, n: u32)
      requires bids != asks && bids.Length == asks.Length == MAX_TICKS
      requires price < MAX_TICKS && n < pool.Length < NULL_INDEX
      requires var tail := View().Levels(side)[price].tail; tail == NULL_INDEX || tail < pool.Length
      modifies pool, bids, asks
      ensures View() == var level := old(View()).Levels(side)[price];
                        SetLevel(old(View()), side, price, PriceLevel(if level.head == NULL_INDEX then n else level.head, n))
                          .(pool := Append(old(pool[..]), level.tail, n))
    {
      if side == Buy {
        AddUpdatePriceLevel(bids, price, n);
      } else {
        AddUpdatePriceLevel(asks, price, n);
      }
    }

    method MarkTick(side: Side, price: u32)
      requires Separate()
      requires bidsBitset.Valid() && asksBitset.Valid() && price < bidsBitset.maxTicks == asksBitset.maxTicks
      modifies bidsBitset, bidsBitset.first, bidsBitset.second, asksBitset, asksBitset.first, asksBitset.second
      ensures bidsBitset.Valid() && asksBitset.Valid()
      ensures bidsBitset.ticks == old(bidsBitset.ticks) + if side == Buy then {price as nat} else {}
      ensures asksBitset.ticks == old(asksBitset.ticks) + if side == Sell then {price as nat} else {}
    {
      hide Bitset.HierarchicalBitset.Valid;
      if side == Buy {
        bidsBitset.SetPriceLevel(price);
      } else {
        asksBitset.SetPriceLevel(price);
      }
    }

    /** The node and level part of an add, with the index of the id. */
    method Enqueue(side: Side, id: u64, price: u32, shares: u32) returns (ok: bool)
      requires bids != asks && bids.Length == asks.Length == MAX_TICKS
      requires price < MAX_TICKS && nextFreeIndex < pool.Length <= SIDE_MASK
      requires var tail := View().Levels(side)[price].tail; tail == NULL_INDEX || tail < pool.Length
      requires orders.Valid() && |orders.Contents()| < orders.capacity
      modifies this`nextFreeIndex, pool, bids, asks, orders, orders.buckets
      ensures ok
      ensures View() == AddArrays(old(View()), id, side, price, shares)
      ensures orders.Valid() && orders.Contents() == old(orders.Contents())[id := Tag(side, old(nextFreeIndex))]
    {
      hide Tag, OrderMap.StaticOrderMap.Valid, OrderMap.StaticOrderMap.Contents;
      var n;
      n, ok := TakeNode(side, id, price, shares);
      LinkOrder(side, price, n);
    }

    /** An accepted add. The subscript that indexes the id never throws. */
    method AddOrderImpl(side: Side, id: u64, price: u32, shares: u32) returns (ok: bool)
      requires Valid() && Accepts(book, price)
      modifies Repr()
      ensures ok
      ensures Valid() && book == ListBook.AddOrder(old(book), id, side, price, shares)
    {
      hide WellFormed, Represents, Ticks, Tagged, Tag, Accepts, AddArrays, ListBook.AddOrder;
      hide OrderMap.StaticOrderMap.Valid, OrderMap.StaticOrderMap.Contents, Bitset.HierarchicalBitset.Valid;
      AddPlan(View(), book, id, side, price, shares);
      ok := Enqueue(side, id, price, shares);
      MarkTick(side, price);
      book := ListBook.AddOrder(book, id, side, price, shares);
    }

    /** `add_order`: a price outside the ticks or an empty pool drops the order. */
    method AddOrder(order: Order) returns (ok: bool)
      requires Valid() && order.Add?
      modifies Repr()
      ensures ok
      ensures Valid() && book == Step(old(book), order).book
      ensures order.price < 100000 && old(book).free != [] ==>
                && old(book).free[0] < |book.nodes|
                && book.nodes[old(book).free[0]] ==
                   Resting(order.id, if order.indicator == 0x42 then Buy else Sell, order.price, order.shares)
    {
      AddLands(book, order);
      if order.price >= MAX_TICKS {
        return true;
      }
      FreeHead(View(), book);
      if nextFreeIndex == NULL_INDEX {
        return true;
      }
      if order.indicator == 0x42 {
        ok := AddOrderImpl(Buy, order.id, order.price, order.shares);
      } else {
        ok := AddOrderImpl(Sell, order.id, order.price, order.shares);
      }
    }

    method ExecuteUpdatePriceLevel(levels: array<PriceLevel>, n: u32)
      requires n < pool.Length && pool[n].price < levels.Length
      modifies levels
      ensures levels[..] == var x := pool[n];
                            var level := old(levels[..])[x.price];
                            old(levels[..])[x.price := PriceLevel(if level.head == n then x.next else level.head,
                                                                  if level.tail == n then x.prev else level.tail)]
    {
      var price := pool[n].price;
      if levels[price].head == n {
        levels[price] := levels[price].(head := pool[n].next);
      }
      if levels[price].tail == n {
        levels[price] := levels[price].(tail := pool[n].prev);
      }
    }

    /** The neighbour and level updates of a release. */
    method UnlinkOrder(side: Side, n: u32)
      requires bids != asks && bids.Length == asks.Length == MAX_TICKS && n < pool.Length < NULL_INDEX
      requires LinksInPool(pool[..], pool[n]) && pool[n].price < MAX_TICKS
      requires pool[n].prev != n && pool[n].next != n
      modifies pool, bids, asks
      ensures View() == var a := old(View());
                        var x := a.pool[n];
                        var level := a.Levels(side)[x.price];
                        SetLevel(a, side, x.price, PriceLevel(if level.head == n then x.next else level.head,
                                                              if level.tail == n then x.prev else level.tail))
                          .(pool := Unlink(a.pool, x))
    {
      ghost var p0 := pool[..];
      if pool[n].prev != NULL_INDEX {
        pool[pool[n].prev] := pool[pool[n].prev].(next := pool[n].next);
      }
      if pool[n].next != NULL_INDEX {
        pool[pool[n].next] := pool[pool[n].next].(prev := pool[n].prev);
      }
      assert pool[..] == Unlink(p0, p0[n]);
      if side == Buy {
        ExecuteUpdatePriceLevel(bids, n);
      } else {
        ExecuteUpdatePriceLevel(asks, n);
      }
    }

    /** Clears the tick of a level that ran empty. */
    method ClearTickIfEmpty(side: Side, price: u32)
      requires Separate() && bids.Length == asks.Length == MAX_TICKS && price < MAX_TICKS
      requires bidsBitset.Valid() && asksBitset.Valid() && bidsBitset.maxTicks == asksBitset.maxTicks == MAX_TICKS
      modifies bidsBitset, bidsBitset.first, bidsBitset.second, asksBitset, asksBitset.first, asksBitset.second
      ensures bidsBitset.Valid() && asksBitset.Valid()
      ensures bidsBitset.ticks == old(bidsBitset.ticks)
                - if side == Buy && bids[price].head == NULL_INDEX then {price as nat} else {}
      ensures asksBitset.ticks == old(asksBitset.ticks)
                - if side == Sell && asks[price].head == NULL_INDEX then {price as nat} else {}
    {
      hide Bitset.HierarchicalBitset.Valid;
      if side == Buy {
        if bids[price].head == NULL_INDEX {
          bidsBitset.ClearPriceLevel(price);
        }
      } else {
        if asks[price].head == NULL_INDEX {
          asksBitset.ClearPriceLevel(price);
        }
      }
    }

    /** Forgets the id of node `n` and puts the node at the head of the free list. */
    method ReturnNode(n: u32)
      requires n < pool.Length && orders.Valid()
      modifies this`nextFreeIndex, pool, orders, orders.buckets
      ensures orders.Valid() && orders.Contents() == old(orders.Contents()) - {old(pool[n].id)}
      ensures pool[..] == old(pool[..])[n := old(pool[n]).(next := old(nextFreeIndex))]
      ensures nextFreeIndex == n
    {
      hide OrderMap.StaticOrderMap.Valid, OrderMap.StaticOrderMap.Contents;
      orders.Erase(pool[n].id);
      pool[n] := pool[n].(next := nextFreeIndex);
      nextFreeIndex := n;
    }

    /** Unlinks a resting node, clears its tick if the level is empty, forgets its id and
        puts it back on the free list. */
    method ReleaseOrderToPool(side: Side, n: u32)
      requires Valid() && RestsIn(book, n, side)
      requires book.nodes[n].id in book.live && book.live[book.nodes[n].id] == n
      modifies Repr()
      ensures Valid() && book == Release(old(book), n)
    {
      hide WellFormed, Represents, RestsIn, Ticks, Tagged, Release, Unlink, LinksInPool, SetLevel;
      hide OrderMap.StaticOrderMap.Valid, OrderMap.StaticOrderMap.Contents, Bitset.HierarchicalBitset.Valid;
      ghost var a := View();
      ReleasePlan(a, book, side, n);
      UnlinkOrder(side, n);
      ReleaseSplit(a, side, n);
      ClearTickIfEmpty(side, pool[n].price);
      ReturnNode(n);
      book := Release(book, n);
      assert View() == ReleaseArrays(a, side, n);
    }

    /** Looks an id up and splits the stored tag into side and pool index. */
    method FindOrder(id: u64) returns (found: bool, side: Side, n: u32)
      requires Valid()
      ensures found <==> id in book.live
      ensures found ==> n == book.live[id] && RestsIn(book, n, side) && book.nodes[n].id == id
    {
      var p := orders.Find(id);
      assert id in book.live <==> id in Tagged(book);
      if p.None? {
        return false, Buy, 0;
      }
      var tagged := orders.buckets[p.value].poolIdx;
      assert tagged == Tagged(book)[id];
      FindPlan(View(), book, id);
      return true, if IsSell(tagged) then Sell else Buy, IndexOfTag(tagged);
    }

    method CancelOrder(id: u64)
      requires Valid()
      modifies Repr()
      ensures Valid() && book == ListBook.CancelOrder(old(book), id)
    {
      var found, side, n := FindOrder(id);
      if found {
        ReleaseOrderToPool(side, n);
      }
    }

    /** Takes executed shares off a node. */
    method ReduceShares(n: u32, shares: u32)
      requires Valid() && n < |book.nodes| && book.nodes[n].Resting? && shares <= book.nodes[n].shares
      modifies Repr()
      ensures Valid() && book == Reduce(old(book), n, shares)
    {
      hide WellFormed, Represents, Ticks, Tagged, Reduce;
      hide OrderMap.StaticOrderMap.Valid, OrderMap.StaticOrderMap.Contents, Bitset.HierarchicalBitset.Valid;
      ghost var a := View();
      ReducePlan(a, book, n, shares);
      pool[n] := pool[n].(shares := pool[n].shares - shares);
      book := Reduce(book, n, shares);
      assert View() == a.(pool := a.pool[n := a.pool[n].(shares := a.pool[n].shares - shares)]);
    }

    /** `execute_order`: false stands for the exception on an over-sized execution. */
    method ExecuteOrder(id: u64, shares: u32) returns (ok: bool)
      requires Valid()
      modifies Repr()
      ensures Valid() && Outcome(book, ok) == ListBook.ExecuteOrder(old(book), id, shares)
    {
      var found, side, n := FindOrder(id);
      if !found {
        return true;
      }
      ReduceReady(View(), book, n);
      if pool[n].shares < shares {
        return false;
      }
      ReduceShares(n, shares);
      ReduceReady(View(), book, n);
      if pool[n].shares == 0 {
        ReleaseOrderToPool(side, n);
      }
      return true;
    }

    /** The dispatch table: one decoded message applied to the book. */
    method Apply(order: Order) returns (ok: bool)
      requires Valid()
      modifies Repr()
      ensures Valid() && Outcome(book, ok) == Step(old(book), order)
    {
      match order
      case Add(_, _, _, _, _, _, _, _) => ok := AddOrder(order);
      case Execute(_, id, _, shares, _, _) => ok := ExecuteOrder(id, shares);
      case Cancel(_, id, _, _, _) => CancelOrder(id); ok := true;
    }

    /** The highest price with a resting buy, or size_t(-1) when there is none. */
    function GetBestBid(): (r: u64)
      requires Valid()
      reads Repr()
      ensures if Ticks(book, Buy) == {} then r == Bitset.NO_TICK else Bitset.IsGreatest(Ticks(book, Buy), r)
    {
      bidsBitset.GetBestBid()
    }

    /** The lowest price with a resting sell, or size_t(-1) when there is none. */
    function GetBestOffer(): (r: u64)
      requires Valid()
      reads Repr()
      ensures if Ticks(book, Sell) == {} then r == Bitset.NO_TICK else Bitset.IsLeast(Ticks(book, Sell), r)
    {
      asksBitset.GetBestOffer()
    }

    /** In every valid state each occupied bucket's tag decodes to the side and index of a
        resting node with the bucket's id. */
    lemma BucketsDecode(p: nat)
      requires Valid() && p < orders.buckets.Length && orders.buckets[p].state.Occupied?
      ensures var bucket := orders.buckets[p];
              var n := IndexOfTag(bucket.poolIdx);
              && n < pool.Length == |book.nodes|
              && book.nodes[n].Resting?
              && book.nodes[n].id == pool[n].id == bucket.orderId
              && book.nodes[n].side == (if IsSell(bucket.poolIdx) then Sell else Buy)
    {
      hide Represents, Partition, Ticks, Tag, IndexOfTag, IsSell;
      var id := orders.buckets[p].orderId;
      assert id in orders.Contents() && orders.Contents()[id] == orders.buckets[p].poolIdx;
      FindPlan(View(), book, id);
      PoolId(View(), book, book.live[id]);
    }

    /** In every valid state a tick's bit, head and tail agree on whether orders rest there. */
    lemma BitHeadTailAgree(side: Side, price: nat)
      requires Valid() && price < MAX_TICKS
      ensures View().Levels(side)[price].head == NULL_INDEX <==> View().Levels(side)[price].tail == NULL_INDEX
      ensures price in (if side == Buy then bidsBitset.ticks else asksBitset.ticks)
              <==> View().Levels(side)[price].head != NULL_INDEX
    {
      HeadNull(View(), book, side, price);
      TailNull(View(), book, side, price);
    }
  }

  /** The constructor's error: a book without nodes is refused. */
  method MakeBook(maxOrders: nat) returns (book: Option<LimitOrderBook>)
    requires maxOrders <= ORDER_MAP_SIZE
    ensures book.None? <==> maxOrders == 0
    ensures book.Some? ==> fresh(book.value.Repr()) && book.value.Valid() && book.value.book == Init(maxOrders)
  {
    hide LimitOrderBook.Valid, Init;
    if maxOrders == 0 {
      return None;
    }
    var b := new LimitOrderBook(maxOrders);
    book := Some(b);
  }
}
