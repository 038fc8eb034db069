/** The level structure behind the live book: prices and quantities in two parallel vectors, sorted
    from worst to best, edited in place after a binary search. */
module SplitLevels {
  import opened Bits
  import opened Shared
  import opened LevelRuns
  import LevelSpec
  import opened SortedLevels

  function Zip(prices: seq<u32>, qtys: seq<u64>): (s: seq<Level>)
    requires |prices| == |qtys|
  {
    seq(|prices|, i requires 0 <= i < |prices| => Level(qtys[i], prices[i]))
  }

  lemma ZipOrdered(side: Side, prices: seq<u32>, qtys: seq<u64>)
    requires |prices| == |qtys|
    ensures PricesOrdered(side, prices) <==> Ordered(side, Zip(prices, qtys))
  {
    var s := Zip(prices, qtys);
    if Ordered(side, s) {
      forall i, j | 0 <= i < j < |prices|
        ensures LevelSpec.Better(side, prices[j], prices[i])
      {
        assert LevelSpec.Better(side, s[j].price, s[i].price);
      }
    }
  }

  /** The price map two parallel vectors stand for. */
  ghost function SplitMap(side: Side, prices: seq<u32>, qtys: seq<u64>): LevelSpec.Levels
    requires |prices| == |qtys| && PricesOrdered(side, prices)
  {
    ZipOrdered(side, prices, qtys);
    ToMap(side, Zip(prices, qtys))
  }

  lemma SplitBest(side: Side, prices: seq<u32>, qtys: seq<u64>)
    requires |prices| == |qtys| && PricesOrdered(side, prices)
    ensures LevelSpec.Best(side, SplitMap(side, prices, qtys))
         == if prices == [] then Level(0, 0) else Level(qtys[|qtys| - 1], prices[|prices| - 1])
  {
    ZipOrdered(side, prices, qtys);
    BestIsLast(side, Zip(prices, qtys));
  }

  /** Editing both vectors the way `add` does. */
  lemma {:induction false} SplitAdd(side: Side, prices: seq<u32>, qtys: seq<u64>, idx: nat, l: Level, prices': seq<u32>, qtys': seq<u64>)
    requires |prices| == |qtys| && PricesOrdered(side, prices) && IsPriceLowerBound(side, prices, l.price, idx)
    requires if idx < |prices| && prices[idx] == l.price
             then prices' == prices && qtys' == qtys[idx := LevelSpec.Sum64(qtys[idx], l.qty)]
             else prices' == Insert(prices, idx, l.price) && qtys' == Insert(qtys, idx, l.qty)
    ensures |prices'| == |qtys'| && PricesOrdered(side, prices')
    ensures SplitMap(side, prices', qtys') == LevelSpec.AddLevel(SplitMap(side, prices, qtys), l)
    ensures prices' != []
    ensures LevelSpec.AddChange(side, SplitMap(side, prices, qtys), l)
         == if |prices| == 0 || idx + 1 >= |prices|
            then BestLvlChange(qtys'[|qtys'| - 1], prices'[|prices'| - 1], side) else NO_CHANGE
  {
    var s := Zip(prices, qtys);
    ZipOrdered(side, prices, qtys);
    assert IsLowerBound(side, s, l.price, idx);
    AddRefines(side, s, idx, l);
    LowerBoundCounts(side, s, l.price, idx);
    assert Zip(prices', qtys') == AddAt(s, idx, l);
    ZipOrdered(side, prices', qtys');
    SplitBest(side, prices', qtys');
  }

  /** Editing both vectors the way `remove` does once its checks have passed. */
  lemma {:induction false} SplitRemove(side: Side, prices: seq<u32>, qtys: seq<u64>, idx: nat, l: Level, prices': seq<u32>, qtys': seq<u64>)
    requires |prices| == |qtys| && PricesOrdered(side, prices) && IsPriceLowerBound(side, prices, l.price, idx)
    requires idx < |prices| && prices[idx] == l.price && l.qty <= qtys[idx]
    requires if qtys[idx] == l.qty
             then prices' == Erase(prices, idx) && qtys' == Erase(qtys, idx)
             else prices' == prices && qtys' == qtys[idx := qtys[idx] - l.qty]
    ensures |prices'| == |qtys'| && PricesOrdered(side, prices')
    ensures LevelSpec.RemoveLevel(SplitMap(side, prices, qtys), l) == Done(SplitMap(side, prices', qtys'))
  {
    var s := Zip(prices, qtys);
    ZipOrdered(side, prices, qtys);
    assert IsLowerBound(side, s, l.price, idx);
    RemoveRefines(side, s, idx, l);
    assert Zip(prices', qtys') == RemoveAt(s, idx, l);
    ZipOrdered(side, prices', qtys');
  }

  /** What `remove` reports: the new last level when the removed quantity was at the last level. */
  lemma {:induction false} SplitRemoveChange(side: Side, prices: seq<u32>, qtys: seq<u64>, l: Level, prices': seq<u32>, qtys': seq<u64>)
    requires |prices| == |qtys| > 0 && PricesOrdered(side, prices)
    requires |prices'| == |qtys'| && PricesOrdered(side, prices')
    requires LevelSpec.RemoveLevel(SplitMap(side, prices, qtys), l) == Done(SplitMap(side, prices', qtys'))
    ensures LevelSpec.RemoveChange(side, SplitMap(side, prices, qtys), l)
         == if prices[|prices| - 1] != l.price then NO_CHANGE
            else if prices' == [] then BestLvlChange(0, 0, side)
            else BestLvlChange(qtys'[|qtys'| - 1], prices'[|prices'| - 1], side)
  {
    SplitBest(side, prices, qtys);
    SplitBest(side, prices', qtys');
  }

  lemma {:induction false} SplitRemoveFails(side: Side, prices: seq<u32>, qtys: seq<u64>, idx: nat, l: Level)
    requires |prices| == |qtys| && PricesOrdered(side, prices) && IsPriceLowerBound(side, prices, l.price, idx)
    ensures idx == |prices| || prices[idx] != l.price ==>
              LevelSpec.RemoveLevel(SplitMap(side, prices, qtys), l) == Abort(LevelNotFound)
    ensures idx < |prices| && prices[idx] == l.price && l.qty > qtys[idx] ==>
              LevelSpec.RemoveLevel(SplitMap(side, prices, qtys), l) == Abort(LevelUnderflow)
  {
    var s := Zip(prices, qtys);
    ZipOrdered(side, prices, qtys);
    assert IsLowerBound(side, s, l.price, idx);
    RemoveRefines(side, s, idx, l);
  }

  /** Only the last price is the price at the last index. */
  lemma LastIsOnlyIndex(side: Side, prices: seq<u32>, idx: nat)
    requires PricesOrdered(side, prices) && idx < |prices|
    ensures idx + 1 == |prices| <==> prices[|prices| - 1] == prices[idx]
  {
    if idx + 1 < |prices| {
      assert LevelSpec.Better(side, prices[|prices| - 1], prices[idx]);
    }
  }

  class VectorLevelBSearchSplit {
    const side: Side
    var prices: seq<u32>
    var qtys: seq<u64>
    /** The price map the two vectors stand for. */
    ghost var contents: LevelSpec.Levels

    ghost predicate Valid()
      reads this
    {
      && |prices| == |qtys|
      && PricesOrdered(side, prices)
      && contents == SplitMap(side, prices, qtys)
    }

    constructor (side: Side)
      ensures Valid() && contents == map[] && this.side == side
    {
      this.side := side;
      prices := [];
      qtys := [];
      contents := map[];
      new;
      assert Prices(Zip(prices, qtys)) == {};
    }

    /** The best level, `(0, 0)` when there is none. */
    function Best(): (l: Level)
      requires Valid()
      reads this
      ensures l == LevelSpec.Best(side, contents)
    {
      SplitBest(side, prices, qtys);
      if prices != [] then
        var i := |prices| - 1;
        Level(qtys[i], prices[i])
      else
        Level(0, 0)
    }

    /** Takes quantity off the level at `idx`, and the level away when nothing is left. */
    method TakeOff(idx: nat, level: Level)
      requires Valid() && IsPriceLowerBound(side, prices, level.price, idx)
      requires idx < |prices| && prices[idx] == level.price && level.qty <= qtys[idx]
      modifies this
      ensures Valid() && LevelSpec.RemoveLevel(old(contents), level) == Done(contents)
    {
      ghost var oldPrices, oldQtys := prices, qtys;
      qtys := qtys[idx := qtys[idx] - level.qty];
      if qtys[idx] == 0 {
        EraseUpdated(oldQtys, idx, 0);
        prices := Erase(prices, idx);
        qtys := Erase(qtys, idx);
      }
      SplitRemove(side, oldPrices, oldQtys, idx, level, prices, qtys);
      contents := SplitMap(side, prices, qtys);
    }

    method Remove(level: Level) returns (r: Outcome<BestLvlChange>)
      requires Valid()
      modifies this
      ensures Valid()
      ensures
        match LevelSpec.RemoveLevel(old(contents), level)
        case Abort(why) => r == Abort(why) && contents == old(contents)
        case Done(m) => contents == m && r == Done(LevelSpec.RemoveChange(side, old(contents), level))
    {
      var oldSize := |prices|;
      var idx := PriceLowerBound(side, prices, level.price);
      SplitRemoveFails(side, prices, qtys, idx, level);
      if idx == |prices| || prices[idx] != level.price {
        return Abort(LevelNotFound);
      }
      var bestChanged := idx + 1 == oldSize;
      LastIsOnlyIndex(side, prices, idx);
      if level.qty > qtys[idx] {
        return Abort(LevelUnderflow);
      }
      ghost var oldPrices, oldQtys := prices, qtys;
      TakeOff(idx, level);
      SplitRemoveChange(side, oldPrices, oldQtys, level, prices, qtys);
      if !bestChanged {
        return Done(NO_CHANGE);
      }
      if prices == [] {
        return Done(BestLvlChange(0, 0, side));
      }
      return Done(BestLvlChange(qtys[|qtys| - 1], prices[|prices| - 1], side));
    }

    method Add(level: Level) returns (change: BestLvlChange)
      requires Valid()
      modifies this
      ensures Valid()
      ensures contents == LevelSpec.AddLevel(old(contents), level)
      ensures change == LevelSpec.AddChange(side, old(contents), level)
    {
      var oldSize := |prices|;
      ghost var oldPrices, oldQtys := prices, qtys;
      var idx := PriceLowerBound(side, prices, level.price);
      var bestChanged := oldSize == 0 || idx + 1 >= oldSize;
      if idx < |prices| && prices[idx] == level.price {
        qtys := qtys[idx := LevelSpec.Sum64(qtys[idx], level.qty)];
      } else {
        prices := Insert(prices, idx, level.price);
        qtys := Insert(qtys, idx, level.qty);
      }
      SplitAdd(side, oldPrices, oldQtys, idx, level, prices, qtys);
      contents := SplitMap(side, prices, qtys);
      if bestChanged {
        change := BestLvlChange(qtys[|qtys| - 1], prices[|prices| - 1], side);
      } else {
        change := NO_CHANGE;
      }
    }
  }

  method SplitBests(side: Side, ops: seq<LevelOp>) returns (bests: seq<Level>)
    requires LegalRun(ops)
    ensures bests == BestsAlong(side, Level(0, 0), ops)
  {
    var v := new VectorLevelBSearchSplit(side);
    bests := [];
    for i := 0 to |ops|
      invariant v.Valid() && fresh(v) && v.contents == LevelsAfter(ops[..i])
      invariant bests == BestsAlong(side, Level(0, 0), ops[..i])
    {
      LegalPrefix(ops, i);
      BestsStep(side, Level(0, 0), ops, i);
      match ops[i] {
        case AddOp(l) => var _ := v.Add(l);
        case RemoveOp(l) => var _ := v.Remove(l);
      }
      bests := bests + [v.Best()];
    }
    assert ops[..|ops|] == ops;
  }
}
