/** How the book's arrays represent its lists: a free list threaded through `next`, and
    per side and price a doubly linked list threaded through `next` and `prev`.
 */
module BookLinks {
  import opened Bits
  import opened Collections
  import opened Orders
  import opened ListBook

  const NULL_INDEX: u32 := 0xFFFF_FFFF

  /** `struct Order`: one node of the pool. */
  datatype PoolOrder = PoolOrder(id: u64, shares: u32, price: u32, next: u32, prev: u32)
  datatype PriceLevel = PriceLevel(head: u32, tail: u32)

  /** The index stored to point at position `i` of a list, null outside it. */
  function At(q: seq<nat>, i: int): nat {
    if 0 <= i < |q| then q[i] else NULL_INDEX
  }

  // ----- the free list

  ghost predicate FreeAt(pool: seq<PoolOrder>, q: seq<nat>, i: nat)
    requires i < |q|
  {
    q[i] < |pool| && pool[q[i]].next == At(q, i + 1)
  }

  ghost predicate FreeListed(pool: seq<PoolOrder>, free: seq<nat>, head: u32) {
    && (forall i :: 0 <= i < |free| ==> FreeAt(pool, free, i))
    && head == At(free, 0)
  }

  // ----- one price level

  ghost predicate LinkedAt(pool: seq<PoolOrder>, q: seq<nat>, i: nat)
    requires i < |q|
  {
    && q[i] < |pool|
    && pool[q[i]].next == At(q, i + 1)
    && pool[q[i]].prev == At(q, i - 1)
  }

  ghost predicate Linked(pool: seq<PoolOrder>, q: seq<nat>, level: PriceLevel) {
    && (forall i :: 0 <= i < |q| ==> LinkedAt(pool, q, i))
    && level.head == At(q, 0)
    && level.tail == At(q, |q| - 1)
  }

  // ----- the whole book

  datatype Arrays = Arrays(pool: seq<PoolOrder>, nextFree: u32, bids: seq<PriceLevel>, asks: seq<PriceLevel>)
  {
    function Levels(side: Side): seq<PriceLevel> {
      if side == Buy then bids else asks
    }
  }

  ghost predicate LevelsLinked(a: Arrays, b: Book, side: Side) {
    && |a.Levels(side)| == |b.Queues(side)|
    && forall p :: 0 <= p < |b.Queues(side)| ==> Linked(a.pool, b.Queues(side)[p], a.Levels(side)[p])
  }

  /** Resting nodes carry their order's id, price and remaining shares. */
  ghost predicate Carries(pool: seq<PoolOrder>, nodes: seq<Node>) {
    && |pool| == |nodes|
    && forall n :: 0 <= n < |nodes| && nodes[n].Resting? ==>
         pool[n].id == nodes[n].id && pool[n].price == nodes[n].price && pool[n].shares == nodes[n].shares
  }

  ghost predicate Represents(a: Arrays, b: Book) {
    && |a.pool| < NULL_INDEX
    && Carries(a.pool, b.nodes)
    && FreeListed(a.pool, b.free, a.nextFree)
    && LevelsLinked(a, b, Buy)
    && LevelsLinked(a, b, Sell)
  }

  // ----- what a change of links leaves alone

  ghost predicate SameLinks(pool: seq<PoolOrder>, pool': seq<PoolOrder>, n: nat) {
    n < |pool| && n < |pool'| && pool'[n].next == pool[n].next && pool'[n].prev == pool[n].prev
  }

  lemma UntouchedLevel(pool: seq<PoolOrder>, pool': seq<PoolOrder>, q: seq<nat>, level: PriceLevel)
    requires Linked(pool, q, level)
    requires forall n :: n in q ==> SameLinks(pool, pool', n)
    ensures Linked(pool', q, level)
  {
    forall i | 0 <= i < |q| ensures LinkedAt(pool', q, i) {
      assert LinkedAt(pool, q, i) && q[i] in q;
    }
  }

  /** Only links changed, and only those of the nodes of `q`. */
  ghost predicate Relinked(pool: seq<PoolOrder>, pool': seq<PoolOrder>, q: seq<nat>) {
    && |pool'| == |pool|
    && forall n :: 0 <= n < |pool| ==>
         && pool'[n].id == pool[n].id && pool'[n].shares == pool[n].shares && pool'[n].price == pool[n].price
         && (n !in q ==> pool'[n] == pool[n])
  }

  /** `pool[i].next = v` and `pool[i].prev = v`, guarded by the null test. */
  function SetNext(pool: seq<PoolOrder>, i: u32, v: u32): (pool': seq<PoolOrder>)
    requires i == NULL_INDEX || i < |pool|
    ensures |pool'| == |pool|
  {
    if i == NULL_INDEX then pool else pool[i := pool[i].(next := v)]
  }

  function SetPrev(pool: seq<PoolOrder>, i: u32, v: u32): (pool': seq<PoolOrder>)
    requires i == NULL_INDEX || i < |pool|
    ensures |pool'| == |pool|
  {
    if i == NULL_INDEX then pool else pool[i := pool[i].(prev := v)]
  }

  // ----- appending to a level

  function Append(pool: seq<PoolOrder>, tail: u32, n: u32): (pool': seq<PoolOrder>)
    requires n < |pool| && (tail == NULL_INDEX || tail < |pool|)
    ensures |pool'| == |pool|
  {
    SetPrev(SetNext(SetNext(pool, n, NULL_INDEX), tail, n), n, tail)
  }

  lemma TailInPool(pool: seq<PoolOrder>, q: seq<nat>, level: PriceLevel)
    requires Linked(pool, q, level)
    ensures level.tail == NULL_INDEX || level.tail < |pool|
  {
    if q != [] { assert LinkedAt(pool, q, |q| - 1); }
  }

  lemma AppendNode(pool: seq<PoolOrder>, q: seq<nat>, level: PriceLevel, n: u32, i: nat)
    requires Linked(pool, q, level) && n < |pool| < NULL_INDEX && n !in q && NoDup(q) && i <= |q|
    requires level.tail == NULL_INDEX || level.tail < |pool|
    ensures LinkedAt(Append(pool, level.tail, n), q + [n], i)
  {
    if i < |q| {
      assert LinkedAt(pool, q, i) && q[i] in q;
      if i < |q| - 1 { assert q[i] != q[|q| - 1]; }
    }
  }

  lemma AppendFrame(pool: seq<PoolOrder>, q: seq<nat>, level: PriceLevel, n: u32)
    requires Linked(pool, q, level) && n < |pool|
    requires level.tail == NULL_INDEX || level.tail < |pool|
    ensures Relinked(pool, Append(pool, level.tail, n), q + [n])
  {
    assert (q + [n])[|q|] == n && (q != [] ==> (q + [n])[|q| - 1] == level.tail);
  }

  lemma AppendLinks(pool: seq<PoolOrder>, q: seq<nat>, level: PriceLevel, n: u32)
    requires Linked(pool, q, level) && n < |pool| < NULL_INDEX && n !in q && NoDup(q)
    requires level.tail == NULL_INDEX || level.tail < |pool|
    ensures Linked(Append(pool, level.tail, n), q + [n],
                   PriceLevel(if level.head == NULL_INDEX then n else level.head, n))
    ensures Relinked(pool, Append(pool, level.tail, n), q + [n])
  {
    AppendFrame(pool, q, level, n);
    if q != [] { assert LinkedAt(pool, q, 0); }
    hide Append, LinkedAt, Relinked, NoDup;
    forall i | 0 <= i <= |q| ensures LinkedAt(Append(pool, level.tail, n), q + [n], i) {
      AppendNode(pool, q, level, n, i);
    }
  }

  // ----- removing from a level

  /** The neighbours of a node are indices of the pool or null. */
  predicate LinksInPool(pool: seq<PoolOrder>, x: PoolOrder) {
    && (x.prev == NULL_INDEX || x.prev < |pool|)
    && (x.next == NULL_INDEX || x.next < |pool|)
  }

  function Unlink(pool: seq<PoolOrder>, x: PoolOrder): (pool': seq<PoolOrder>)
    requires LinksInPool(pool, x)
    ensures |pool'| == |pool|
  {
    SetPrev(SetNext(pool, x.prev, x.next), x.next, x.prev)
  }

  lemma NeighboursInPool(pool: seq<PoolOrder>, q: seq<nat>, level: PriceLevel, k: nat)
    requires Linked(pool, q, level) && k < |q|
    ensures q[k] < |pool| && LinksInPool(pool, pool[q[k]])
  {
    assert LinkedAt(pool, q, k);
    if k > 0 { assert LinkedAt(pool, q, k - 1); }
    if k + 1 < |q| { assert LinkedAt(pool, q, k + 1); }
  }

  /** After the unlink, each remaining node points past the removed one. */
  lemma UnlinkNode(pool: seq<PoolOrder>, q: seq<nat>, level: PriceLevel, k: nat, i: nat)
    requires Linked(pool, q, level) && |pool| < NULL_INDEX && k < |q| && NoDup(q) && i < |q| && i != k
    requires q[k] < |pool| && LinksInPool(pool, pool[q[k]])
    ensures q[i] < |pool|
    ensures var y := Unlink(pool, pool[q[k]])[q[i]];
            && y.next == (if i + 1 == k then At(q, k + 1) else At(q, i + 1))
            && y.prev == (if i - 1 == k then At(q, k - 1) else At(q, i - 1))
  {
    assert LinkedAt(pool, q, k) && LinkedAt(pool, q, i);
    if k > 0 { assert LinkedAt(pool, q, k - 1); }
    if k + 1 < |q| { assert LinkedAt(pool, q, k + 1); }
    assert i < k - 1 ==> q[i] != q[k - 1];
    assert i > k - 1 && k > 0 ==> q[i] != q[k - 1];
    assert i < k + 1 && k + 1 < |q| ==> q[i] != q[k + 1];
    assert i > k + 1 ==> q[i] != q[k + 1];
  }

  lemma UnlinkNodeAt(pool: seq<PoolOrder>, q: seq<nat>, level: PriceLevel, k: nat, i: nat)
    requires Linked(pool, q, level) && |pool| < NULL_INDEX && k < |q| && NoDup(q) && i < |q| - 1
    requires q[k] < |pool| && LinksInPool(pool, pool[q[k]])
    ensures LinkedAt(Unlink(pool, pool[q[k]]), Without(q, k), i)
  {
    UnlinkNode(pool, q, level, k, if i < k then i else i + 1);
    hide Unlink, NoDup, Linked;
  }

  lemma UnlinkEnds(pool: seq<PoolOrder>, q: seq<nat>, level: PriceLevel, k: nat)
    requires Linked(pool, q, level) && k < |q| && NoDup(q) && q[k] < |pool|
    ensures var r, n, x := Without(q, k), q[k], pool[q[k]];
            && (if level.head == n then x.next else level.head) == At(r, 0)
            && (if level.tail == n then x.prev else level.tail) == At(r, |r| - 1)
  {
    assert LinkedAt(pool, q, k);
    assert k > 0 ==> q[0] != q[k];
    assert k < |q| - 1 ==> q[k] != q[|q| - 1];
  }

  lemma UnlinkFrame(pool: seq<PoolOrder>, q: seq<nat>, level: PriceLevel, k: nat)
    requires Linked(pool, q, level) && k < |q| && q[k] < |pool| && LinksInPool(pool, pool[q[k]])
    ensures Relinked(pool, Unlink(pool, pool[q[k]]), Without(q, k))
  {
    assert LinkedAt(pool, q, k);
    var r := Without(q, k);
    if k > 0 { assert r[k - 1] == q[k - 1]; }
    if k + 1 < |q| { assert r[k] == q[k + 1]; }
  }

  lemma UnlinkLinks(pool: seq<PoolOrder>, q: seq<nat>, level: PriceLevel, k: nat)
    requires Linked(pool, q, level) && |pool| < NULL_INDEX && k < |q| && NoDup(q)
    requires q[k] < |pool| && LinksInPool(pool, pool[q[k]])
    ensures var n, x := q[k], pool[q[k]];
            && Linked(Unlink(pool, x), Without(q, k),
                      PriceLevel(if level.head == n then x.next else level.head,
                                 if level.tail == n then x.prev else level.tail))
            && Relinked(pool, Unlink(pool, x), Without(q, k))
  {
    UnlinkEnds(pool, q, level, k);
    UnlinkFrame(pool, q, level, k);
    hide Unlink, LinkedAt, Relinked, NoDup;
    forall i | 0 <= i < |q| - 1 ensures LinkedAt(Unlink(pool, pool[q[k]]), Without(q, k), i) {
      UnlinkNodeAt(pool, q, level, k, i);
    }
  }

  // ----- whole-book steps

  function SetLevel(a: Arrays, side: Side, price: nat, level: PriceLevel): Arrays
    requires price < |a.Levels(side)|
  {
    if side == Buy then a.(bids := a.bids[price := level]) else a.(asks := a.asks[price := level])
  }

  /** A side stays linked when each of its levels is linked afresh or left alone. */
  lemma SideKept(a: Arrays, a': Arrays, b: Book, b': Book, s: Side)
    requires LevelsLinked(a, b, s)
    requires |a'.Levels(s)| == |b'.Queues(s)| == |b.Queues(s)|
    requires forall p :: 0 <= p < |b.Queues(s)| ==>
               || Linked(a'.pool, b'.Queues(s)[p], a'.Levels(s)[p])
               || (&& b'.Queues(s)[p] == b.Queues(s)[p]
                   && a'.Levels(s)[p] == a.Levels(s)[p]
                   && forall n :: n in b.Queues(s)[p] ==> SameLinks(a.pool, a'.pool, n))
    ensures LevelsLinked(a', b', s)
  {
    forall p | 0 <= p < |b'.Queues(s)| ensures Linked(a'.pool, b'.Queues(s)[p], a'.Levels(s)[p]) {
      assert Linked(a.pool, b.Queues(s)[p], a.Levels(s)[p]);
      if !Linked(a'.pool, b'.Queues(s)[p], a'.Levels(s)[p]) {
        UntouchedLevel(a.pool, a'.pool, b.Queues(s)[p], a.Levels(s)[p]);
      }
    }
  }

  /** The arrays after an accepted add. */
  function AddArrays(a: Arrays, id: u64, side: Side, price: u32, shares: u32): Arrays
    requires price < |a.Levels(side)| && a.nextFree < |a.pool|
    requires var tail := a.Levels(side)[price].tail; tail == NULL_INDEX || tail < |a.pool|
  {
    var n, level := a.nextFree, a.Levels(side)[price];
    var written := a.pool[n := a.pool[n].(id := id, price := price, shares := shares)];
    SetLevel(a, side, price, PriceLevel(if level.head == NULL_INDEX then n else level.head, n))
      .(nextFree := a.pool[n].next,
        pool := Append(written, level.tail, n))
  }

  /** What the arrays hold when an add is accepted. */
  lemma AddReady(a: Arrays, b: Book, side: Side, price: u32)
    requires WellFormed(b) && Represents(a, b) && Accepts(b, price)
    ensures a.nextFree == b.free[0] < |a.pool| && a.nextFree in b.free
    ensures price < |a.Levels(side)|
    ensures Linked(a.pool, b.Queues(side)[price], a.Levels(side)[price])
    ensures var tail := a.Levels(side)[price].tail; tail == NULL_INDEX || tail < |a.pool|
  {
    assert FreeAt(a.pool, b.free, 0);
    assert b.free[0] in b.free;
    assert LevelsLinked(a, b, side);
    TailInPool(a.pool, b.Queues(side)[price], a.Levels(side)[price]);
  }

  lemma UntouchedIn(pool: seq<PoolOrder>, pool': seq<PoolOrder>, q: seq<nat>, level: PriceLevel)
    requires Linked(pool, q, level) && |pool'| == |pool|
    requires forall n :: 0 <= n < |pool| ==> SameLinks(pool, pool', n)
    ensures Linked(pool', q, level)
  {
    forall n | n in q ensures SameLinks(pool, pool', n) {
      var i :| 0 <= i < |q| && q[i] == n;
      assert LinkedAt(pool, q, i);
    }
    UntouchedLevel(pool, pool', q, level);
  }

  /** The level that grows, and what the rest of the pool keeps. */
  lemma AddLevel(a: Arrays, b: Book, id: u64, side: Side, price: u32, shares: u32)
    requires WellFormed(b) && Represents(a, b) && Accepts(b, price)
    requires a.nextFree < |a.pool| && price < |a.Levels(side)|
    requires var tail := a.Levels(side)[price].tail; tail == NULL_INDEX || tail < |a.pool|
    ensures var a' := AddArrays(a, id, side, price, shares);
            var q := b.Queues(side)[price] + [a.nextFree];
            && Linked(a'.pool, q, a'.Levels(side)[price])
            && Relinked(a.pool[a.nextFree := a.pool[a.nextFree].(id := id, price := price, shares := shares)], a'.pool, q)
  {
    AddReady(a, b, side, price);
    var n, q, level := a.nextFree, b.Queues(side)[price], a.Levels(side)[price];
    assert !b.RestsAt(n, side, price);
    var written := a.pool[n := a.pool[n].(id := id, price := price, shares := shares)];
    assert n !in q;
    UntouchedIn(a.pool, written, q, level);
    AppendLinks(written, q, level, n);
  }

  lemma AddSide(a: Arrays, b: Book, id: u64, side: Side, price: u32, shares: u32, s: Side)
    requires WellFormed(b) && Represents(a, b) && Accepts(b, price)
    requires a.nextFree < |a.pool| && price < |a.Levels(side)|
    requires var tail := a.Levels(side)[price].tail; tail == NULL_INDEX || tail < |a.pool|
    ensures LevelsLinked(AddArrays(a, id, side, price, shares), AddOrder(b, id, side, price, shares), s)
  {
    AddReady(a, b, side, price);
    AddLevel(a, b, id, side, price, shares);
    var a', b', n := AddArrays(a, id, side, price, shares), AddOrder(b, id, side, price, shares), a.nextFree;
    forall p, m: nat | 0 <= p < MAX_TICKS && !(s == side && p == price) && m in b.Queues(s)[p]
      ensures SameLinks(a.pool, a'.pool, m)
    {
      assert b.RestsAt(m, s, p) && !b.RestsAt(m, side, price);
    }
    hide AddArrays, AddOrder, Linked, Relinked, WellFormed;
    assert LevelsLinked(a, b, s);
    SideKept(a, a', b, b', s);
  }

  lemma AddRest(a: Arrays, b: Book, id: u64, side: Side, price: u32, shares: u32)
    requires WellFormed(b) && Represents(a, b) && Accepts(b, price)
    requires a.nextFree < |a.pool| && price < |a.Levels(side)|
    requires var tail := a.Levels(side)[price].tail; tail == NULL_INDEX || tail < |a.pool|
    ensures var a', b' := AddArrays(a, id, side, price, shares), AddOrder(b, id, side, price, shares);
            && Carries(a'.pool, b'.nodes)
            && FreeListed(a'.pool, b'.free, a'.nextFree)
  {
    hide LiveOk, LevelsLinked;
    AddReady(a, b, side, price);
    AddLevel(a, b, id, side, price, shares);
    var a', b', n := AddArrays(a, id, side, price, shares), AddOrder(b, id, side, price, shares), a.nextFree;
    var q := b.Queues(side)[price];
    assert forall m: nat :: m in q <==> b.RestsAt(m, side, price);
    forall i | 0 <= i < |b'.free| ensures FreeAt(a'.pool, b'.free, i) {
      assert FreeAt(a.pool, b.free, i + 1);
      assert b.free[i + 1] in b.free && b.free[i + 1] != b.free[0];
      assert b.free[i + 1] !in q + [n];
    }
    assert FreeAt(a.pool, b.free, 0);
  }

  /** An accepted add on the arrays is the add on the lists. */
  lemma AddRepresents(a: Arrays, b: Book, id: u64, side: Side, price: u32, shares: u32)
    requires WellFormed(b) && Represents(a, b) && Accepts(b, price)
    requires a.nextFree < |a.pool| && price < |a.Levels(side)|
    requires var tail := a.Levels(side)[price].tail; tail == NULL_INDEX || tail < |a.pool|
    ensures Represents(AddArrays(a, id, side, price, shares), AddOrder(b, id, side, price, shares))
  {
    AddSide(a, b, id, side, price, shares, Buy);
    AddSide(a, b, id, side, price, shares, Sell);
    AddRest(a, b, id, side, price, shares);
  }

  // ----- releasing a node

  /** The arrays after a resting node is unlinked and pushed on the free list. */
  function ReleaseArrays(a: Arrays, side: Side, n: u32): Arrays
    requires n < |a.pool| && LinksInPool(a.pool, a.pool[n]) && a.pool[n].price < |a.Levels(side)|
  {
    var x := a.pool[n];
    var level := a.Levels(side)[x.price];
    var pool := Unlink(a.pool, x);
    SetLevel(a, side, x.price, PriceLevel(if level.head == n then x.next else level.head,
                                          if level.tail == n then x.prev else level.tail))
      .(nextFree := n,
        pool := pool[n := pool[n].(next := a.nextFree)])
  }

  ghost predicate RestsIn(b: Book, n: nat, side: Side) {
    n < |b.nodes| && b.nodes[n].Resting? && b.nodes[n].side == side
  }

  lemma ReleaseReady(a: Arrays, b: Book, side: Side, n: u32)
    requires WellFormed(b) && Represents(a, b) && RestsIn(b, n, side)
    ensures n < |a.pool| && LinksInPool(a.pool, a.pool[n])
    ensures a.pool[n].price == b.nodes[n].price < |a.Levels(side)| == MAX_TICKS
    ensures Linked(a.pool, b.Queues(side)[b.nodes[n].price], a.Levels(side)[b.nodes[n].price])
    ensures n in b.Queues(side)[b.nodes[n].price]
  {
    var price := b.nodes[n].price;
    assert b.RestsAt(n, side, price);
    var q := b.Queues(side)[price];
    assert LevelsLinked(a, b, side);
    NeighboursInPool(a.pool, q, a.Levels(side)[price], IndexOf(q, n));
  }

  lemma UnlinkedStays(pool: seq<PoolOrder>, pool': seq<PoolOrder>, q: seq<nat>, level: PriceLevel, n: nat)
    requires Linked(pool, q, level) && n !in q && n < |pool| == |pool'| && pool' == pool[n := pool'[n]]
    ensures Linked(pool', q, level)
  {
    forall m | m in q ensures SameLinks(pool, pool', m) {
      var i :| 0 <= i < |q| && q[i] == m;
      assert LinkedAt(pool, q, i);
    }
    UntouchedLevel(pool, pool', q, level);
  }

  /** The level that shrinks, and what the rest of the pool keeps. */
  lemma ReleaseLevel(a: Arrays, b: Book, side: Side, n: u32)
    requires WellFormed(b) && Represents(a, b) && RestsIn(b, n, side)
    requires n < |a.pool| && LinksInPool(a.pool, a.pool[n]) && a.pool[n].price < |a.Levels(side)|
    ensures var a', price := ReleaseArrays(a, side, n), b.nodes[n].price;
            && price < MAX_TICKS && n in b.Queues(side)[price]
            && var q := b.Queues(side)[price];
               var r := Without(q, IndexOf(q, n));
               && Linked(a'.pool, r, a'.Levels(side)[price])
               && Relinked(a.pool, Unlink(a.pool, a.pool[n]), r)
               && n !in r
  {
    ReleaseReady(a, b, side, n);
    var price := b.nodes[n].price;
    var q, level := b.Queues(side)[price], a.Levels(side)[price];
    var k := IndexOf(q, n);
    UnlinkLinks(a.pool, q, level, k);
    WithoutMembers(q, k);
    var pool := Unlink(a.pool, a.pool[n]);
    var a' := ReleaseArrays(a, side, n);
    hide Unlink, Relinked, NoDup, WellFormed, Represents;
    UnlinkedStays(pool, a'.pool, Without(q, k), a'.Levels(side)[price], n);
  }

  /** A node that rests elsewhere keeps its links. */
  lemma OthersUntouched(a: Arrays, b: Book, side: Side, n: u32, m: nat)
    requires WellFormed(b) && Represents(a, b) && RestsIn(b, n, side)
    requires n < |a.pool| && LinksInPool(a.pool, a.pool[n]) && a.pool[n].price < |a.Levels(side)|
    requires b.nodes[n].price < MAX_TICKS && !b.RestsAt(m, side, b.nodes[n].price) && m < |a.pool|
    ensures SameLinks(a.pool, ReleaseArrays(a, side, n).pool, m)
  {
    hide LiveOk, LevelsLinked, Carries, FreeListed;
    ReleaseLevel(a, b, side, n);
    var q := b.Queues(side)[b.nodes[n].price];
    WithoutMembers(q, IndexOf(q, n));
    assert m !in q;
  }

  lemma ReleaseSide(a: Arrays, b: Book, side: Side, n: u32, s: Side)
    requires WellFormed(b) && Represents(a, b) && RestsIn(b, n, side)
    requires n < |a.pool| && LinksInPool(a.pool, a.pool[n]) && a.pool[n].price < |a.Levels(side)|
    ensures LevelsLinked(ReleaseArrays(a, side, n), Release(b, n), s)
  {
    hide LiveOk, Unlink, FreeListed;
    ReleaseReady(a, b, side, n);
    ReleaseLevel(a, b, side, n);
    var a', b', price := ReleaseArrays(a, side, n), Release(b, n), b.nodes[n].price;
    forall p, m: nat | 0 <= p < MAX_TICKS && !(s == side && p == price) && m in b.Queues(s)[p]
      ensures SameLinks(a.pool, a'.pool, m)
    {
      assert b.RestsAt(m, s, p) && !b.RestsAt(m, side, price);
      OthersUntouched(a, b, side, n, m);
    }
    hide ReleaseArrays, Release, Linked, Relinked, WellFormed;
    assert LevelsLinked(a, b, s);
    SideKept(a, a', b, b', s);
  }

  /** Free nodes are on no level, so an unlink leaves the free list alone. */
  lemma FreeUntouched(a: Arrays, b: Book, side: Side, n: u32, i: nat)
    requires WellFormed(b) && Represents(a, b) && RestsIn(b, n, side) && i < |b.free|
    requires n < |a.pool| && LinksInPool(a.pool, a.pool[n]) && a.pool[n].price < |a.Levels(side)|
    ensures b.free[i] < |a.pool| && b.free[i] != n
    ensures ReleaseArrays(a, side, n).pool[b.free[i]] == a.pool[b.free[i]]
  {
    hide LiveOk, LevelsLinked, Carries;
    ReleaseLevel(a, b, side, n);
    var q := b.Queues(side)[b.nodes[n].price];
    WithoutMembers(q, IndexOf(q, n));
    assert FreeAt(a.pool, b.free, i);
    assert b.free[i] in b.free && !b.RestsAt(b.free[i], side, b.nodes[n].price);
    assert b.free[i] !in q;
  }

  lemma ReleaseFree(a: Arrays, b: Book, side: Side, n: u32)
    requires WellFormed(b) && Represents(a, b) && RestsIn(b, n, side)
    requires n < |a.pool| && LinksInPool(a.pool, a.pool[n]) && a.pool[n].price < |a.Levels(side)|
    ensures FreeListed(ReleaseArrays(a, side, n).pool, Release(b, n).free, ReleaseArrays(a, side, n).nextFree)
  {
    hide LiveOk, LevelsLinked, Carries, QueuesOk, Unlink;
    var a', free' := ReleaseArrays(a, side, n), [n as nat] + b.free;
    forall i | 0 <= i < |free'| ensures FreeAt(a'.pool, free', i) {
      if i > 0 {
        FreeUntouched(a, b, side, n, i - 1);
        assert FreeAt(a.pool, b.free, i - 1);
      }
    }
  }

  lemma ReleaseRest(a: Arrays, b: Book, side: Side, n: u32)
    requires WellFormed(b) && Represents(a, b) && RestsIn(b, n, side)
    requires n < |a.pool| && LinksInPool(a.pool, a.pool[n]) && a.pool[n].price < |a.Levels(side)|
    ensures var a', b' := ReleaseArrays(a, side, n), Release(b, n);
            && Carries(a'.pool, b'.nodes)
            && FreeListed(a'.pool, b'.free, a'.nextFree)
  {
    hide LiveOk, LevelsLinked, FreeListed;
    ReleaseFree(a, b, side, n);
    ReleaseLevel(a, b, side, n);
    var q := b.Queues(side)[b.nodes[n].price];
    WithoutMembers(q, IndexOf(q, n));
  }

  /** Releasing a node on the arrays is releasing it on the lists. */
  lemma ReleaseRepresents(a: Arrays, b: Book, side: Side, n: u32)
    requires WellFormed(b) && Represents(a, b) && RestsIn(b, n, side)
    requires n < |a.pool| && LinksInPool(a.pool, a.pool[n]) && a.pool[n].price < |a.Levels(side)|
    ensures Represents(ReleaseArrays(a, side, n), Release(b, n))
  {
    ReleaseSide(a, b, side, n, Buy);
    ReleaseSide(a, b, side, n, Sell);
    ReleaseRest(a, b, side, n);
  }

  // ----- reducing a node's shares

  lemma ReduceRepresents(a: Arrays, b: Book, n: u32, shares: u32)
    requires Represents(a, b) && n < |b.nodes| && b.nodes[n].Resting? && shares <= b.nodes[n].shares
    ensures a.pool[n].shares == b.nodes[n].shares
    ensures Represents(a.(pool := a.pool[n := a.pool[n].(shares := a.pool[n].shares - shares)]), Reduce(b, n, shares))
  {
    var a' := a.(pool := a.pool[n := a.pool[n].(shares := a.pool[n].shares - shares)]);
    forall s: Side ensures LevelsLinked(a', Reduce(b, n, shares), s) {
      forall p | 0 <= p < |b.Queues(s)| ensures Linked(a'.pool, b.Queues(s)[p], a'.Levels(s)[p]) {
        assert LevelsLinked(a, b, s);
        UntouchedIn(a.pool, a'.pool, b.Queues(s)[p], a.Levels(s)[p]);
      }
    }
    forall i | 0 <= i < |b.free| ensures FreeAt(a'.pool, b.free, i) {
      assert FreeAt(a.pool, b.free, i);
    }
  }
}
