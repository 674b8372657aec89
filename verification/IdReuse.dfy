/** Why ids must be fresh: the condition under which the book refines the simple book is
    exact.
 */
module IdReuse {
  import opened Bits
  import opened Collections
  import opened Orders
  import opened ListBook
  import opened BookRuns
  import opened SimpleBook

  /** After these orders the book is still the simple book. */
  ghost predicate Agrees(b: Book, orders: seq<Order>)
    requires WellFormed(b)
  {
    RunKeeps(b, orders);
    Abs(Run(b, orders)) == SimpleRun(Abs(b), orders)
  }

  /** Some resting node is not the one its id leads to. */
  predicate HasOrphan(b: Book) {
    |b.live| + |b.free| < |b.nodes|
  }

  /** Fewer ids rest than there are machine words. */
  lemma UnusedId(live: map<u64, nat>) returns (id: u64)
    requires |live| < 0xFFFF_FFFF_FFFF_FFFF
    ensures id !in live
  {
    var ids := Range(|live| + 1);
    RangeSize(|live| + 1);
    assert |live| == |live.Keys|;
    if ids <= live.Keys {
      SubsetSize(ids, live.Keys);
      assert false;
    }
    var x: nat :| x in ids && x !in live.Keys;
    id := x;
  }

  lemma AgreesOne(b: Book, order: Order)
    requires WellFormed(b)
    ensures WellFormed(Step(b, order).book)
    ensures Agrees(b, [order]) <==> Abs(Step(b, order).book) == SimpleStep(Abs(b), order).book
    ensures FreshIds(Abs(b), [order]) <==> FreshId(Abs(b), order)
  {
    StepKeeps(b, order);
    hide WellFormed, Step, Abs, SimpleStep, FreshId;
    var next, next' := Step(b, order).book, SimpleStep(Abs(b), order).book;
    assert [order][1..] == [];
    assert Run(next, []) == next && SimpleRun(next', []) == next' && FreshIds(next', []);
  }

  /** As long as the first order agrees, a run agrees when the rest of it does. */
  lemma AgreesRest(b: Book, order: Order, rest: seq<Order>)
    requires WellFormed(b) && Agrees(b, [order])
    ensures WellFormed(Step(b, order).book)
    ensures Agrees(b, [order] + rest) <==> Agrees(Step(b, order).book, rest)
    ensures FreshIds(Abs(b), [order] + rest) <==> FreshId(Abs(b), order) && FreshIds(Abs(Step(b, order).book), rest)
  {
    AgreesOne(b, order);
    hide WellFormed, Step, Abs, SimpleStep, FreshId;
    assert ([order] + rest)[1..] == rest;
  }

  /** On a full pool the simple book takes what the book refuses. */
  lemma FullPoolDiverges(b: Book, id: u64)
    requires WellFormed(b) && HasOrphan(b) && b.free == [] && id !in b.live
    ensures !Agrees(b, [BuyOne(id)])
  {
    hide Partition, LiveOk, AbsLevels;
    AgreesOne(b, BuyOne(id));
    assert AbsOrders(b).Keys == b.live.Keys;
    assert |AbsOrders(b)| == |b.live|;
    assert id in SimpleStep(Abs(b), BuyOne(id)).book.orders;
  }

  lemma AddKeepsOrphan(b: Book, id: u64)
    requires WellFormed(b) && HasOrphan(b) && b.free != [] && id !in b.live
    ensures var b' := Step(b, BuyOne(id)).book;
            && WellFormed(b') && HasOrphan(b')
            && |b'.nodes| == |b.nodes| && |b'.free| == |b.free| - 1
  {
    StepKeeps(b, BuyOne(id));
    hide Partition, LiveOk;
    var b' := Step(b, BuyOne(id)).book;
    assert b'.live.Keys == b.live.Keys + {id};
    assert |b'.live| == |b'.live.Keys| && |b.live| == |b.live.Keys|;
  }

  lemma FreshMeansUnused(b: Book, id: u64)
    requires WellFormed(b)
    ensures id !in b.live ==> FreshId(Abs(b), BuyOne(id))
  {
  }

  /** An orphan takes a node that the simple book believes free. Adds with fresh ids fill
      the pool, and then the simple book takes one that the book refuses. */
  lemma {:induction false} OrphanDiverges(b: Book) returns (orders: seq<Order>)
    requires WellFormed(b) && HasOrphan(b) && |b.nodes| < 0x1_0000_0000_0000_0000
    ensures FreshIds(Abs(b), orders) && !Agrees(b, orders)
    decreases |b.free|
  {
    hide WellFormed, Step, Agrees, FreshIds, FreshId, Abs, BuyOne;
    var id := UnusedId(b.live);
    var order := BuyOne(id);
    FreshMeansUnused(b, id);
    AgreesOne(b, order);
    orders := [order];
    if Agrees(b, [order]) {
      if b.free == [] {
        FullPoolDiverges(b, id);
        assert false;
      }
      AddKeepsOrphan(b, id);
      var rest := OrphanDiverges(Step(b, order).book);
      AgreesRest(b, order, rest);
      orders := [order] + rest;
    }
  }

  /** An accepted add of an id that already rests leaves an orphan. */
  lemma ReuseLeavesOrphan(b: Book, order: Order)
    requires WellFormed(b) && IdsUnique(b) && order.Add? && Accepts(b, order.price) && order.id in b.live
    ensures var b' := Step(b, order).book;
            WellFormed(b') && HasOrphan(b') && |b'.nodes| == |b.nodes|
  {
    StepKeeps(b, order);
    PoolConserved(b);
    LiveInjective(b);
    hide Partition, LiveOk;
    assert Step(b, order).book.live.Keys == b.live.Keys;
    assert |Step(b, order).book.live| == |b.live.Keys| == |b.live|;
  }

  lemma FreshRunAgrees(b: Book, order: Order, rest: seq<Order>)
    requires WellFormed(b) && IdsUnique(b) && order.Add? && order.id !in b.live
    requires FreshIds(SimpleStep(Abs(b), order).book, rest)
    ensures Agrees(b, [order] + rest)
  {
    assert FreshId(Abs(b), order);
    StepRefines(b, order);
    AgreesOne(b, order);
    hide WellFormed, Step, Abs, SimpleStep, FreshId, FreshIds, IdsUnique;
    RunRefines(Step(b, order).book, rest);
    AgreesRest(b, order, rest);
  }

  lemma DivergingRest(b: Book, order: Order) returns (rest: seq<Order>)
    requires WellFormed(b) && IdsUnique(b) && order.Add? && Accepts(b, order.price) && order.id in b.live
    requires |b.nodes| < 0x1_0000_0000_0000_0000
    ensures FreshIds(SimpleStep(Abs(b), order).book, rest) && !Agrees(b, [order] + rest)
  {
    hide WellFormed, Step, Agrees, FreshId, Abs, IdsUnique, SimpleStep;
    ReuseLeavesOrphan(b, order);
    AgreesOne(b, order);
    if Agrees(b, [order]) {
      rest := OrphanDiverges(Step(b, order).book);
      AgreesRest(b, order, rest);
    } else {
      rest := [];
      assert [order] + rest == [order];
    }
  }

  /** An accepted add is harmless, in that every continuation with fresh ids is a run of
      the simple book, if and only if its own id does not already rest. */
  lemma FreshIdIsExact(b: Book, order: Order)
    requires WellFormed(b) && IdsUnique(b) && order.Add? && Accepts(b, order.price)
    requires |b.nodes| < 0x1_0000_0000_0000_0000
    ensures order.id !in b.live <==>
            forall rest :: FreshIds(SimpleStep(Abs(b), order).book, rest) ==> Agrees(b, [order] + rest)
  {
    if order.id !in b.live {
      forall rest | FreshIds(SimpleStep(Abs(b), order).book, rest) ensures Agrees(b, [order] + rest) {
        FreshRunAgrees(b, order, rest);
      }
    } else {
      var rest := DivergingRest(b, order);
    }
  }

  function CancelSeven(): Order {
    Cancel(0, 7, 0, 0, 0)
  }

  lemma FirstBuy()
    ensures WellFormed(Init(2)) && Agrees(Init(2), [BuyOne(7)])
    ensures var b := Step(Init(2), BuyOne(7)).book;
            && WellFormed(b) && IdsUnique(b)
            && 7 in b.live && b.free != [] && b.RestsAt(b.live[7], Buy, 0)
  {
    hide Partition, LiveOk, IdsUnique, AbsLevels, AbsOrders, Agrees;
    InitOk(2);
    assert Init(2).live == map[] && Init(2).free == [0, 1] && |Init(2).nodes| == 2;
    FreshMeansUnused(Init(2), 7);
    StepRefines(Init(2), BuyOne(7));
    AgreesOne(Init(2), BuyOne(7));
  }

  lemma TwoSteps(b: Book, o: Order, p: Order)
    requires WellFormed(b)
    ensures var b' := Step(b, o).book;
            && WellFormed(b') && WellFormed(Step(b', p).book)
            && (Agrees(b, [o, p]) <==>
                Abs(Step(b', p).book) == SimpleStep(SimpleStep(Abs(b), o).book, p).book)
  {
    hide WellFormed, Step, Abs, SimpleStep;
    StepKeeps(b, o);
    StepKeeps(Step(b, o).book, p);
    assert [o, p][1..] == [p] && [p][1..] == [];
    var b' := Step(Step(b, o).book, p).book;
    var s' := SimpleStep(SimpleStep(Abs(b), o).book, p).book;
    assert Run(b', []) == b' && SimpleRun(s', []) == s';
    assert Run(Step(b, o).book, [p]) == b' && SimpleRun(SimpleStep(Abs(b), o).book, [p]) == s';
  }

  lemma SecondBuy(b: Book)
    requires WellFormed(b) && IdsUnique(b)
    requires 7 in b.live && b.free != [] && b.RestsAt(b.live[7], Buy, 0)
    ensures !Agrees(b, [BuyOne(7), CancelSeven()])
  {
    hide WellFormed, IdsUnique, Abs, AddOrder, ListBook.CancelOrder, SimpleAdd, SimpleCancel, Agrees;
    TwoSteps(b, BuyOne(7), CancelSeven());
    CancelAfterReuse(b, 7, Buy, 0, 1);
  }

  /** The smallest case: two adds of id 7 and a cancel, on a pool of two nodes. */
  lemma ReuseExample()
    ensures WellFormed(Init(2))
    ensures !Agrees(Init(2), [BuyOne(7), BuyOne(7), CancelSeven()])
  {
    hide WellFormed, Step, Agrees, BuyOne, CancelSeven, Init, Abs;
    InitOk(2);
    FirstBuy();
    AgreesRest(Init(2), BuyOne(7), [BuyOne(7), CancelSeven()]);
    assert [BuyOne(7)] + [BuyOne(7), CancelSeven()] == [BuyOne(7), BuyOne(7), CancelSeven()];
    SecondBuy(Step(Init(2), BuyOne(7)).book);
  }
}
