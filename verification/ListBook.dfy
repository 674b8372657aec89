/** The order book seen as lists of pool indices.

    A book owns a fixed pool of nodes. Each node is either on the free list or resting in
    the queue of one side and price, oldest first; `live` maps an order id to the node
    that cancels and executions of that id act on. The functions below say what each
    operation does to these lists, for every input: a re-used id included. The linked
    implementation is proved to compute exactly these functions.
 */
module ListBook {
  import opened Bits
  import opened Collections
  import opened Orders

  const MAX_TICKS: nat := 100000

  datatype Node = Free | Resting(id: u64, side: Side, price: nat, shares: u32)

  datatype Book = Book(
    nodes: seq<Node>,
    free: seq<nat>,
    bids: seq<seq<nat>>,
    asks: seq<seq<nat>>,
    live: map<u64, nat>)
  {
    function Queues(side: Side): seq<seq<nat>> {
      if side == Buy then bids else asks
    }

    predicate RestsAt(n: nat, side: Side, price: nat) {
      n < |nodes| && nodes[n].Resting? && nodes[n].side == side && nodes[n].price == price
    }
  }

  datatype Outcome = Outcome(book: Book, ok: bool)

  // ----- invariants

  /** One side's queues: each holds, once, exactly the nodes resting at its price. */
  ghost predicate QueuesOk(b: Book, side: Side) {
    && |b.Queues(side)| == MAX_TICKS
    && (forall p :: 0 <= p < MAX_TICKS ==> NoDup(b.Queues(side)[p]))
    && (forall p, n: nat :: 0 <= p < MAX_TICKS ==> (n in b.Queues(side)[p] <==> b.RestsAt(n, side, p)))
  }

  /** Every pool index lies exactly once in the free list or in one queue. */
  ghost predicate Partition(b: Book) {
    && NoDup(b.free)
    && (forall n: nat :: n in b.free <==> n < |b.nodes| && b.nodes[n].Free?)
    && (forall n :: 0 <= n < |b.nodes| && b.nodes[n].Resting? ==> b.nodes[n].price < MAX_TICKS)
    && QueuesOk(b, Buy)
    && QueuesOk(b, Sell)
  }

  /** Every known id leads to a resting node that carries it. */
  ghost predicate LiveOk(b: Book) {
    forall id :: id in b.live ==>
      && b.live[id] < |b.nodes|
      && b.nodes[b.live[id]].Resting?
      && b.nodes[b.live[id]].id == id
  }

  ghost predicate WellFormed(b: Book) {
    Partition(b) && LiveOk(b)
  }

  /** Every resting node is the one its id leads to: ids and nodes correspond. */
  ghost predicate IdsUnique(b: Book) {
    forall n :: 0 <= n < |b.nodes| && b.nodes[n].Resting? ==>
      b.nodes[n].id in b.live && b.live[b.nodes[n].id] == n
  }

  // ----- operations

  function IndexOf(s: seq<nat>, x: nat): (k: nat)
    requires x in s
    ensures k < |s| && s[k] == x
  {
    if s[0] == x then 0 else 1 + IndexOf(s[1..], x)
  }

  function SetQueue(b: Book, side: Side, price: nat, q: seq<nat>): Book
    requires price < |b.Queues(side)|
  {
    if side == Buy then b.(bids := b.bids[price := q]) else b.(asks := b.asks[price := q])
  }

  /** Whether an add takes effect: the price is a tick and the pool has a free node. */
  predicate Accepts(b: Book, price: nat) {
    price < MAX_TICKS && b.free != []
  }

  function AddOrder(b: Book, id: u64, side: Side, price: nat, shares: u32): Book
    requires WellFormed(b)
  {
    if !Accepts(b, price) then b
    else
      var n := b.free[0];
      assert n in b.free;
      SetQueue(b, side, price, b.Queues(side)[price] + [n])
        .(nodes := b.nodes[n := Resting(id, side, price, shares)],
          free := b.free[1..],
          live := b.live[id := n])
  }

  /** Unlink a resting node, forget its id and put it at the front of the free list. */
  function Release(b: Book, n: nat): Book
    requires Partition(b) && n < |b.nodes| && b.nodes[n].Resting?
  {
    var node := b.nodes[n];
    assert b.RestsAt(n, node.side, node.price);
    var q := b.Queues(node.side)[node.price];
    SetQueue(b, node.side, node.price, Without(q, IndexOf(q, n)))
      .(nodes := b.nodes[n := Free],
        free := [n] + b.free,
        live := b.live - {node.id})
  }

  function CancelOrder(b: Book, id: u64): Book
    requires WellFormed(b)
  {
    if id in b.live then Release(b, b.live[id]) else b
  }

  function Reduce(b: Book, n: nat, shares: u32): Book
    requires n < |b.nodes| && b.nodes[n].Resting? && shares <= b.nodes[n].shares
  {
    b.(nodes := b.nodes[n := b.nodes[n].(shares := b.nodes[n].shares - shares)])
  }

  lemma ReduceKeeps(b: Book, n: nat, shares: u32)
    requires WellFormed(b) && n < |b.nodes| && b.nodes[n].Resting? && shares <= b.nodes[n].shares
    ensures WellFormed(Reduce(b, n, shares))
    ensures IdsUnique(b) ==> IdsUnique(Reduce(b, n, shares))
  {
    var b' := Reduce(b, n, shares);
    assert forall m, side, p :: b'.RestsAt(m, side, p) <==> b.RestsAt(m, side, p);
  }

  /** An execution of more shares than rest is an error and changes nothing. */
  function ExecuteOrder(b: Book, id: u64, shares: u32): Outcome
    requires WellFormed(b)
  {
    if id !in b.live then Outcome(b, true)
    else
      var n := b.live[id];
      if b.nodes[n].shares < shares then Outcome(b, false)
      else if b.nodes[n].shares == shares then
        ReduceKeeps(b, n, shares);
        Outcome(Release(Reduce(b, n, shares), n), true)
      else Outcome(Reduce(b, n, shares), true)
  }

  function Step(b: Book, order: Order): Outcome
    requires WellFormed(b)
  {
    match order
    case Add(_, id, shares, price, _, _, _, indicator) =>
      Outcome(AddOrder(b, id, SideOf(indicator), price, shares), true)
    case Execute(_, id, _, shares, _, _) => ExecuteOrder(b, id, shares)
    case Cancel(_, id, _, _, _) => Outcome(CancelOrder(b, id), true)
  }

  /** Where an add goes, in terms of its bytes: prices from 100000 on and a full pool drop it,
      indicator 'B' puts it at the end of the bids at its price, and every other indicator at
      the end of the asks; the other side and all other prices stay as they are. */
  lemma AddLands(b: Book, order: Order)
    requires WellFormed(b) && order.Add?
    ensures |b.bids| == |b.asks| == 100000 && Step(b, order).ok
    ensures order.price >= 100000 || b.free == [] ==> Step(b, order).book == b
    ensures order.price < 100000 && b.free != [] ==>
              var b', n, p := Step(b, order).book, b.free[0], order.price;
              && n < |b.nodes| && b.nodes[n].Free?
              && b'.free == b.free[1..] && b'.live == b.live[order.id := n]
              && (order.indicator == 0x42 ==>
                    && b'.bids == b.bids[p := b.bids[p] + [n]] && b'.asks == b.asks
                    && b'.nodes == b.nodes[n := Resting(order.id, Buy, p, order.shares)])
              && (order.indicator != 0x42 ==>
                    && b'.asks == b.asks[p := b.asks[p] + [n]] && b'.bids == b.bids
                    && b'.nodes == b.nodes[n := Resting(order.id, Sell, p, order.shares)])
  {
    assert QueuesOk(b, Buy) && QueuesOk(b, Sell);
    if b.free != [] { assert b.free[0] in b.free; }
  }

  // ----- each operation keeps the invariant

  lemma AddKeepsQueues(b: Book, id: u64, side: Side, price: nat, shares: u32, s: Side)
    requires WellFormed(b) && Accepts(b, price)
    ensures QueuesOk(AddOrder(b, id, side, price, shares), s)
  {
    var b', n := AddOrder(b, id, side, price, shares), b.free[0];
    assert n in b.free;
    forall p, m | 0 <= p < MAX_TICKS
      ensures m in b'.Queues(s)[p] <==> b'.RestsAt(m, s, p)
    {
      assert m in b.Queues(s)[p] <==> b.RestsAt(m, s, p);
    }
    forall p | 0 <= p < MAX_TICKS ensures NoDup(b'.Queues(s)[p]) {
      assert !b.RestsAt(n, s, p) && n !in b.Queues(s)[p];
    }
  }

  lemma AddKeeps(b: Book, id: u64, side: Side, price: nat, shares: u32)
    requires WellFormed(b)
    ensures WellFormed(AddOrder(b, id, side, price, shares))
    ensures |AddOrder(b, id, side, price, shares).nodes| == |b.nodes|
  {
    if Accepts(b, price) {
      var b', n := AddOrder(b, id, side, price, shares), b.free[0];
      assert n in b.free;
      AddKeepsQueues(b, id, side, price, shares, Buy);
      AddKeepsQueues(b, id, side, price, shares, Sell);
      WithoutMembers(b.free, 0);
      assert Without(b.free, 0) == b'.free;
    }
  }

  lemma ReleaseKeepsQueues(b: Book, n: nat, s: Side)
    requires WellFormed(b) && n < |b.nodes| && b.nodes[n].Resting?
    ensures QueuesOk(Release(b, n), s)
  {
    var b', node := Release(b, n), b.nodes[n];
    assert b.RestsAt(n, node.side, node.price);
    var q := b.Queues(node.side)[node.price];
    WithoutMembers(q, IndexOf(q, n));
    forall p, m | 0 <= p < MAX_TICKS
      ensures m in b'.Queues(s)[p] <==> b'.RestsAt(m, s, p)
    {
      assert m in b.Queues(s)[p] <==> b.RestsAt(m, s, p);
    }
  }

  lemma ReleaseKeeps(b: Book, n: nat)
    requires WellFormed(b) && n < |b.nodes| && b.nodes[n].Resting?
    requires b.nodes[n].id in b.live && b.live[b.nodes[n].id] == n
    ensures WellFormed(Release(b, n))
    ensures IdsUnique(b) ==> IdsUnique(Release(b, n))
  {
    ReleaseKeepsQueues(b, n, Buy);
    ReleaseKeepsQueues(b, n, Sell);
  }

  lemma ExecuteKeeps(b: Book, id: u64, shares: u32)
    requires WellFormed(b)
    ensures WellFormed(ExecuteOrder(b, id, shares).book)
    ensures |ExecuteOrder(b, id, shares).book.nodes| == |b.nodes|
    ensures IdsUnique(b) ==> IdsUnique(ExecuteOrder(b, id, shares).book)
  {
    if id in b.live {
      var n := b.live[id];
      if b.nodes[n].shares >= shares {
        ReduceKeeps(b, n, shares);
        if b.nodes[n].shares == shares { ReleaseKeeps(Reduce(b, n, shares), n); }
      }
    }
  }

  lemma NewNodeIsLast(b: Book, side: Side, price: nat)
    requires WellFormed(b) && Accepts(b, price)
    ensures b.free[0] < |b.nodes| && b.nodes[b.free[0]].Free?
    ensures var n, q := b.free[0], b.Queues(side)[price];
            n in q + [n] && IndexOf(q + [n], n) == |q| && Without(q + [n], |q|) == q
  {
    var n := b.free[0];
    assert n in b.free;
    var q := b.Queues(side)[price];
    assert n !in q;
    assert (q + [n])[|q|] == n;
  }

  /** A cancel takes back the add before it: lists, pool and free list are as they were, and
      the id is forgotten, even one that another node still carries. */
  lemma CancelUndoesAdd(b: Book, id: u64, side: Side, price: nat, shares: u32)
    requires WellFormed(b) && Accepts(b, price)
    ensures WellFormed(AddOrder(b, id, side, price, shares))
    ensures CancelOrder(AddOrder(b, id, side, price, shares), id) == b.(live := b.live - {id})
    ensures WellFormed(b.(live := b.live - {id}))
  {
    hide IndexOf;
    AddKeeps(b, id, side, price, shares);
    NewNodeIsLast(b, side, price);
    var b1 := AddOrder(b, id, side, price, shares);
    ReleaseKeeps(b1, b.free[0]);
    var b2 := Release(b1, b.free[0]);
    assert b2.nodes == b.nodes && b2.free == b.free && b2.live == b.live - {id};
    var n, qs := b.free[0], b.Queues(side);
    assert b1.Queues(side)[price] == qs[price] + [n] && b2.Queues(side)[price] == qs[price];
    assert qs[price := qs[price] + [n]][price := qs[price]] == qs;
  }

  lemma StepKeeps(b: Book, order: Order)
    requires WellFormed(b)
    ensures WellFormed(Step(b, order).book)
    ensures |Step(b, order).book.nodes| == |b.nodes|
  {
    match order
    case Add(_, id, shares, price, _, _, _, indicator) => AddKeeps(b, id, SideOf(indicator), price, shares);
    case Execute(_, id, _, shares, _, _) => ExecuteKeeps(b, id, shares);
    case Cancel(_, id, _, _, _) => if id in b.live { ReleaseKeeps(b, b.live[id]); }
  }

  // ----- the empty book

  function Upto(n: nat): (s: seq<nat>)
    ensures |s| == n && forall k :: 0 <= k < n ==> s[k] == k
  {
    seq(n, k => k)
  }

  function Init(maxOrders: nat): Book {
    var none := seq(MAX_TICKS, _ => []);
    Book(seq(maxOrders, _ => Free), Upto(maxOrders), none, none, map[])
  }

  lemma InitOk(maxOrders: nat)
    ensures WellFormed(Init(maxOrders)) && IdsUnique(Init(maxOrders))
  {
    var b := Init(maxOrders);
    forall n ensures n in b.free <==> 0 <= n < maxOrders {
      if 0 <= n < maxOrders { assert b.free[n] == n; }
    }
  }
}
