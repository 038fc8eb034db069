/** Price levels behind a lazily cleaned heap: the heap may hold prices that are gone, and prices twice,
    but never misses one that is there. */
module HeapBooks {
  import opened Shared
  import opened LevelSpec
  import opened LevelRuns

  /** Every price with a quantity has an entry in the heap. */
  predicate Covers(heap: multiset<u32>, m: Levels) {
    forall p | p in m && m[p] > 0 :: p in heap
  }

  /** What the heap can still find. */
  function Found(heap: multiset<u32>, m: Levels): Levels {
    map p | p in m && m[p] > 0 && p in heap :: m[p]
  }

  predicate IsTop(side: Side, heap: multiset<u32>, price: u32) {
    price in heap && forall p | p in heap :: !Better(side, p, price)
  }

  lemma {:induction false} TopExists(side: Side, heap: multiset<u32>)
    requires heap != multiset{}
    ensures exists p :: IsTop(side, heap, p)
  {
    var entries: Levels := map p | p in heap :: 1;
    var p :| p in heap;
    assert p in entries;
    assert IsTop(side, heap, Best(side, entries).price);
  }

  /** The top of the heap is the best price found, if it is there. */
  lemma TopIsBest(side: Side, heap: multiset<u32>, m: Levels, price: u32)
    requires IsTop(side, heap, price) && price in m && m[price] > 0
    ensures Best(side, Found(heap, m)) == Level(m[price], price)
  {
    var found := Found(heap, m);
    assert price in found;
    BestUnique(side, found, Best(side, found), Level(m[price], price));
  }

  /** Dropping a dead entry loses nothing. */
  lemma DropDead(heap: multiset<u32>, m: Levels, price: u32)
    requires price in heap && (price !in m || m[price] == 0)
    ensures Found(heap - multiset{price}, m) == Found(heap, m)
  {
  }

  lemma {:induction false} CoveredIsFound(side: Side, heap: multiset<u32>, m: Levels)
    requires Covers(heap, m)
    ensures Found(heap, m) == Live(m)
  {
  }

  /** `std::priority_queue` with the counts of what ever went in and out. */
  class PriorityQueue {
    const side: Side
    var items: multiset<u32>
    ghost var pushes: nat
    ghost var pops: nat

    ghost predicate Valid()
      reads this
    {
      |items| + pops == pushes
    }

    constructor (side: Side)
      ensures Valid() && items == multiset{} && this.side == side && pushes == pops == 0
    {
      this.side := side;
      items := multiset{};
      pushes, pops := 0, 0;
    }

    method Push(price: u32)
      requires Valid()
      modifies this
      ensures Valid() && items == old(items) + multiset{price}
      ensures pushes == old(pushes) + 1 && pops == old(pops)
    {
      items := items + multiset{price};
      pushes := pushes + 1;
    }

    method Top() returns (price: u32)
      requires items != multiset{}
      ensures IsTop(side, items, price)
    {
      TopExists(side, items);
      assert exists p: u32 :: p in items && forall q | q in items :: !Better(side, q, p) by {
        var t :| IsTop(side, items, t);
      }
      price :| price in items && forall q | q in items :: !Better(side, q, price);
    }

    method Pop()
      requires Valid() && items != multiset{}
      modifies this
      ensures Valid()
      ensures forall p | IsTop(side, old(items), p) :: items == old(items) - multiset{p}
      ensures pushes == old(pushes) && pops == old(pops) + 1
    {
      var price := Top();
      items := items - multiset{price};
      pops := pops + 1;
    }
  }

  class HeapLevels {
    const side: Side
    const heap: PriorityQueue
    var qtyByPrice: map<u32, u64>

    ghost predicate Valid()
      reads this, heap
    {
      && heap.side == side && heap.Valid()
      && Covers(heap.items, qtyByPrice)
    }

    constructor (side: Side)
      ensures Valid() && fresh(heap) && qtyByPrice == map[] && this.side == side && heap.pushes == 0
    {
      this.side := side;
      heap := new PriorityQueue(side);
      qtyByPrice := map[];
    }

    method Add(level: Level)
      requires Valid()
      modifies this, heap
      ensures Valid()
      ensures qtyByPrice == AddLevel(old(qtyByPrice), level)
      ensures heap.pops == old(heap.pops) && heap.pushes <= old(heap.pushes) + 1
    {
      var qty := QtyAt(qtyByPrice, level.price);
      if qty == 0 {
        heap.Push(level.price);
      }
      qtyByPrice := qtyByPrice[level.price := Sum64(qty, level.qty)];
    }

    method Remove(level: Level) returns (r: Outcome<()>)
      requires Valid()
      modifies this`qtyByPrice
      ensures Valid()
      ensures
        match RemoveLevel(old(qtyByPrice), level)
        case Abort(why) => r == Abort(why) && qtyByPrice == old(qtyByPrice)
        case Done(m) => r == Done(()) && qtyByPrice == m
    {
      if level.price !in qtyByPrice {
        return Abort(LevelNotFound);
      }
      if level.qty > qtyByPrice[level.price] {
        return Abort(LevelUnderflow);
      }
      ghost var m := qtyByPrice;
      qtyByPrice := qtyByPrice[level.price := qtyByPrice[level.price] - level.qty];
      if qtyByPrice[level.price] == 0 {
        qtyByPrice := qtyByPrice - {level.price};
        assert qtyByPrice == m - {level.price};
      }
      r := Done(());
    }

    /** Drops dead entries until a live price is on top; the price map stays as it is. */
    method Best() returns (best: Level)
      requires Valid()
      modifies heap
      ensures Valid()
      ensures best == LevelSpec.Best(side, Live(qtyByPrice))
      ensures heap.items == multiset{} || (IsTop(side, heap.items, best.price) && best.qty > 0)
      ensures heap.pushes == old(heap.pushes) && heap.pops <= heap.pushes
    {
      CoveredIsFound(side, heap.items, qtyByPrice);
      while heap.items != multiset{}
        invariant Valid()
        invariant Found(heap.items, qtyByPrice) == Live(qtyByPrice)
        invariant heap.pushes == old(heap.pushes)
        decreases |heap.items|
      {
        var price := heap.Top();
        if price in qtyByPrice && qtyByPrice[price] > 0 {
          TopIsBest(side, heap.items, qtyByPrice, price);
          return Level(qtyByPrice[price], price);
        }
        DropDead(heap.items, qtyByPrice, price);
        heap.Pop();
      }
      best := Level(0, 0);
    }
  }

  /** Asked after every step of any legal run, the heap names the best level, and all that asking never takes
      more than one pop for each step. */
  method HeapBests(side: Side, ops: seq<LevelOp>) returns (bests: seq<Level>, ghost pops: nat)
    requires LegalRun(ops)
    ensures bests == BestsAlong(side, Level(0, 0), ops) && pops <= |ops|
  {
    var levels := new HeapLevels(side);
    bests := [];
    for i := 0 to |ops|
      invariant levels.Valid() && fresh(levels) && fresh(levels.heap)
      invariant levels.qtyByPrice == LevelsAfter(ops[..i])
      invariant bests == BestsAlong(side, Level(0, 0), ops[..i])
      invariant levels.heap.pushes <= i
    {
      LegalPrefix(ops, i);
      match ops[i] {
        case AddOp(l) => levels.Add(l);
        case RemoveOp(l) => var _ := levels.Remove(l);
      }
      var best := levels.Best();
      BestsStep(side, Level(0, 0), ops, i);
      bests := bests + [best];
    }
    assert ops[..|ops|] == ops;
    pops := levels.heap.pops;
  }
}
