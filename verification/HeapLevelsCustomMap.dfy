/** The lazily cleaned heap over the custom hash table. Unlike `HeapLevels` it pushes a price only when
    the table has no entry for it, so an entry with quantity 0 can make it lose the price. */
module HeapCustomBooks {
  import opened Bits
  import opened Shared
  import opened LevelSpec
  import opened LevelRuns
  import opened PriceToQtyMaps
  import opened HeapBooks

  predicate Wide(m: Levels, m64: map<u64, u64>) {
    && (forall p | p in m :: p in m64 && m64[p] == m[p])
    && (forall k | k in m64 :: k < TWO_TO_32 && k in m)
  }

  /** The prices that share a bucket of the table. */
  function PricesAt(hash: u64 -> u64, m: Levels, b: nat): set<u32> {
    set p | p in m && Home(hash, p) == b
  }

  /** A price has no entry and eight other prices live in its bucket. */
  predicate Crowded(hash: u64 -> u64, m: Levels, price: u32) {
    price !in m && |PricesAt(hash, m, Home(hash, price))| == BUCKET_SIZE
  }

  lemma WideResidents(hash: u64 -> u64, m: Levels, m64: map<u64, u64>, b: nat)
    requires Wide(m, m64)
    ensures |Residents(hash, m64, b)| == |PricesAt(hash, m, b)|
  {
    assert Residents(hash, m64, b) == PricesAt(hash, m, b);
  }

  /** The heap of an addition: a price is pushed only when the table has no entry for it. */
  function HeapAfter(heap: multiset<u32>, m: Levels, price: u32): multiset<u32> {
    if price in m then heap else heap + multiset{price}
  }

  /** An addition keeps the heap complete exactly when the price is new, or still in the heap, or its
      sum is 0: an entry with quantity 0 that `best` has dropped from the heap does not come back. */
  lemma {:induction false} CoversExactlyWhen(heap: multiset<u32>, m: Levels, l: Level)
    requires Covers(heap, m)
    ensures Covers(HeapAfter(heap, m, l.price), AddLevel(m, l))
       <==> l.price !in m || l.price in heap || QtyAt(AddLevel(m, l), l.price) == 0
  {
    var m' := AddLevel(m, l);
    if Covers(HeapAfter(heap, m, l.price), m') {
      assert l.price in m';
    }
  }

  /** What the heap finds is the best level exactly when the best price is still in the heap. */
  lemma {:induction false} FindsBestExactlyWhen(side: Side, heap: multiset<u32>, m: Levels)
    ensures Best(side, Found(heap, m)) == Best(side, Live(m))
       <==> Live(m) == map[] || Best(side, Live(m)).price in heap
  {
    var found, live := Found(heap, m), Live(m);
    if live != map[] && Best(side, live).price in heap {
      assert Best(side, live).price in found;
      BestUnique(side, found, Best(side, found), Best(side, live));
    } else if live == map[] {
      assert found == map[];
    }
  }

  class HeapLevelsCustomMap {
    const side: Side
    const heap: PriorityQueue
    const qtyByPrice: PriceToQtyMap
    /** The price map the table stands for. */
    ghost var contents: Levels

    ghost predicate Valid()
      reads this, heap, qtyByPrice, qtyByPrice.table
    {
      && heap.side == side && heap.Valid() && 0 !in heap.items
      && qtyByPrice.Valid() && Wide(contents, qtyByPrice.contents)
    }

    ghost const Repr: set<object> := {this, heap, qtyByPrice, qtyByPrice.table}

    constructor (side: Side, hash: u64 -> u64)
      ensures Valid() && fresh(Repr) && contents == map[] && heap.items == multiset{}
      ensures this.side == side && qtyByPrice.hash == hash
    {
      this.side := side;
      heap := new PriorityQueue(side);
      qtyByPrice := new PriceToQtyMap(hash);
      contents := map[];
    }

    /** Price 0 marks a free slot: its quantity is written into one and lost. */
    method Add(level: Level) returns (r: Outcome<()>)
      requires Valid()
      modifies Repr
      ensures Valid()
      ensures r == if Crowded(qtyByPrice.hash, old(contents), level.price) then Abort(BucketFull) else Done(())
      ensures contents == if r.Done? && level.price != 0 then AddLevel(old(contents), level) else old(contents)
      ensures heap.items == if r.Done? && level.price != 0 then HeapAfter(old(heap.items), old(contents), level.price)
                            else old(heap.items)
      ensures heap.pops == old(heap.pops) && heap.pushes <= old(heap.pushes) + 1
    {
      WideResidents(qtyByPrice.hash, contents, qtyByPrice.contents, Home(qtyByPrice.hash, level.price));
      var slot := qtyByPrice.Find(level.price);
      if slot.None? {
        r := qtyByPrice.Insert(level.price, level.qty);
        if r.Done? {
          contents := contents[level.price := level.qty];
          heap.Push(level.price);
        }
        return;
      }
      var qty := Sum64(qtyByPrice.table[Home(qtyByPrice.hash, level.price)][slot.value].value, level.qty);
      SetQty(level.price, slot.value, qty);
      r := Done(());
    }

    /** Writes the quantity of a price through the pointer that a probe returned. */
    method SetQty(price: u32, slot: nat, qty: u64)
      requires Valid() && slot < BUCKET_SIZE && qtyByPrice.table[Home(qtyByPrice.hash, price)][slot].key == price
      modifies this`contents, qtyByPrice`contents, qtyByPrice.table
      ensures Valid() && contents == if price == 0 then old(contents) else old(contents)[price := qty]
    {
      qtyByPrice.SetSlot(price, slot, qty);
      if price != 0 {
        contents := contents[price := qty];
      }
    }

    /** For price 0 the answer depends on what a free slot happens to hold, and nothing is removed. */
    method Remove(level: Level) returns (r: Outcome<()>)
      requires Valid()
      modifies Repr
      ensures Valid() && heap.items == old(heap.items)
      ensures level.price != 0 ==>
                match RemoveLevel(old(contents), level)
                case Abort(why) => r == Abort(why) && contents == old(contents)
                case Done(m) => r == Done(()) && contents == m
      ensures level.price == 0 ==> contents == old(contents)
      ensures level.price == 0 ==> (r == Abort(LevelNotFound) <==> Crowded(qtyByPrice.hash, old(contents), 0))
    {
      WideResidents(qtyByPrice.hash, contents, qtyByPrice.contents, Home(qtyByPrice.hash, level.price));
      var slot := qtyByPrice.Find(level.price);
      if slot.None? {
        return Abort(LevelNotFound);
      }
      var qty := qtyByPrice.table[Home(qtyByPrice.hash, level.price)][slot.value].value;
      if level.qty > qty {
        return Abort(LevelUnderflow);
      }
      ghost var before := contents;
      SetQty(level.price, slot.value, qty - level.qty);
      if qty == level.qty {
        DropPrice(level.price);
        assert contents == before - {level.price};
      }
      r := Done(());
    }

    method DropPrice(price: u32)
      requires Valid()
      modifies this`contents, qtyByPrice`contents, qtyByPrice.table
      ensures Valid() && contents == old(contents) - {price}
    {
      var _ := qtyByPrice.Erase(price);
      contents := contents - {price};
    }

    /** Drops dead entries until a live price is on top. What it finds is the best of the live prices
        that are still in the heap. */
    method Best() returns (best: Level)
      requires Valid()
      modifies heap
      ensures Valid() && heap.items <= old(heap.items)
      ensures best == LevelSpec.Best(side, Found(old(heap.items), contents))
      ensures Found(heap.items, contents) == Found(old(heap.items), contents)
      ensures heap.items == multiset{} || (IsTop(side, heap.items, best.price) && best.qty > 0)
      ensures heap.pushes == old(heap.pushes) && heap.pops <= heap.pushes
    {
      while heap.items != multiset{}
        invariant Valid() && heap.items <= old(heap.items)
        invariant Found(heap.items, contents) == Found(old(heap.items), contents)
        invariant heap.pushes == old(heap.pushes)
        decreases |heap.items|
      {
        var price := heap.Top();
        var slot := qtyByPrice.Find(price);
        if slot.Some? {
          var qty := qtyByPrice.table[Home(qtyByPrice.hash, price)][slot.value].value;
          if qty > 0 {
            TopIsBest(side, heap.items, contents, price);
            return Level(qty, price);
          }
        }
        DropDead(heap.items, contents, price);
        heap.Pop();
      }
      best := Level(0, 0);
    }
  }

  /** Every added price is nonzero and finds room in its bucket. */
  predicate FitsTable(hash: u64 -> u64, ops: seq<LevelOp>) {
    forall i | 0 <= i < |ops| ::
      && ops[i].level.price != 0
      && (ops[i].AddOp? ==> !Crowded(hash, LevelsAfter(ops[..i]), ops[i].level.price))
  }

  /** One legal step that fits the table keeps the heap complete. */
  method Step(levels: HeapLevelsCustomMap, op: LevelOp)
    requires levels.Valid() && Covers(levels.heap.items, levels.contents) && Positive(levels.contents)
    requires LegalOp(levels.contents, op) && op.level.price != 0
    requires op.AddOp? ==> !Crowded(levels.qtyByPrice.hash, levels.contents, op.level.price)
    modifies levels.Repr
    ensures levels.Valid() && Covers(levels.heap.items, levels.contents)
    ensures levels.contents == After(old(levels.contents), op)
  {
    CoversExactlyWhen(levels.heap.items, levels.contents, op.level);
    match op {
      case AddOp(l) => var _ := levels.Add(l);
      case RemoveOp(l) => var _ := levels.Remove(l);
    }
  }

  /** Asked after every step of any legal run that fits the table, the heap names the best level. */
  method CustomHeapBests(side: Side, hash: u64 -> u64, ops: seq<LevelOp>) returns (bests: seq<Level>)
    requires LegalRun(ops) && FitsTable(hash, ops)
    ensures bests == BestsAlong(side, Level(0, 0), ops)
  {
    var levels := new HeapLevelsCustomMap(side, hash);
    bests := [];
    for i := 0 to |ops|
      invariant levels.Valid() && fresh(levels.Repr)
      invariant levels.contents == LevelsAfter(ops[..i]) && Covers(levels.heap.items, levels.contents)
      invariant bests == BestsAlong(side, Level(0, 0), ops[..i])
    {
      LegalPrefix(ops, i);
      Step(levels, ops[i]);
      CoveredIsFound(side, levels.heap.items, levels.contents);
      BestsStep(side, Level(0, 0), ops, i);
      var best := levels.Best();
      bests := bests + [best];
    }
    assert ops[..|ops|] == ops;
  }

  /** The book after an entry with quantity 0 has been given its first real quantity. */
  lemma {:induction false} RealBest(side: Side, qty: u64, price: u32, ops: seq<LevelOp>)
    requires qty > 0 && ops == [AddOp(Level(0, price)), AddOp(Level(qty, price))]
    ensures Best(side, LevelsAfter(ops)) == Level(qty, price)
  {
    assert ops[..1] == [AddOp(Level(0, price))] && ops[..1][..0] == [];
    assert LevelsAfter(ops[..1]) == map[price := 0];
    var m := LevelsAfter(ops);
    assert m == map[price := qty];
    assert IsBest(side, m, Level(qty, price));
    BestUnique(side, m, Best(side, m), Level(qty, price));
  }

  /** Adding nothing, asking for the best level and then adding something hides the price. */
  method EmptyAddHidesPrice(side: Side, hash: u64 -> u64, qty: u64, price: u32) returns (best: Level)
    requires price != 0 && qty > 0
    ensures best == Level(0, 0) != LevelSpec.Best(side, LevelsAfter([AddOp(Level(0, price)), AddOp(Level(qty, price))]))
  {
    var levels := new HeapLevelsCustomMap(side, hash);
    var _ := levels.Add(Level(0, price));
    var _ := levels.Best();
    assert levels.heap.items == multiset{};
    var _ := levels.Add(Level(qty, price));
    best := levels.Best();
    RealBest(side, qty, price, [AddOp(Level(0, price)), AddOp(Level(qty, price))]);
  }

  /** Price 0 is never there, however much has been added to it. */
  method ZeroPriceIsLost(side: Side, hash: u64 -> u64, qty: u64) returns (best: Level)
    requires qty > 0
    ensures best == Level(0, 0) != LevelSpec.Best(side, LevelsAfter([AddOp(Level(qty, 0))]))
  {
    var levels := new HeapLevelsCustomMap(side, hash);
    var _ := levels.Add(Level(qty, 0));
    best := levels.Best();
    var m: Levels := map[0 := qty];
    assert IsBest(side, m, Level(qty, 0));
    BestUnique(side, m, LevelSpec.Best(side, m), Level(qty, 0));
    var ops := [AddOp(Level(qty, 0))];
    assert ops[..0] == [] && LevelsAfter(ops) == m;
  }
}
