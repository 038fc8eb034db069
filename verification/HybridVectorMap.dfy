/** A sorted vector of prices beside a map from price to quantity. */
module HybridVectorMaps {
  import opened Bits
  import opened Shared
  import opened LevelRuns
  import LevelSpec
  import opened SortedLevels

  /** The vector lists exactly the prices of the map. */
  ghost predicate Lists(prices: seq<u32>, m: LevelSpec.Levels) {
    forall p :: p in prices <==> p in m
  }

  lemma {:induction false} PriceInserted(side: Side, prices: seq<u32>, m: LevelSpec.Levels, idx: nat, price: u32, qty: u64)
    requires PricesOrdered(side, prices) && Lists(prices, m) && IsPriceLowerBound(side, prices, price, idx)
    requires price !in m
    ensures PricesOrdered(side, Insert(prices, idx, price)) && Lists(Insert(prices, idx, price), m[price := qty])
  {
    var prices' := Insert(prices, idx, price);
    forall i, j | 0 <= i < j < |prices'|
      ensures LevelSpec.Better(side, prices'[j], prices'[i])
    {
      assert forall k | idx <= k < |prices| :: prices[k] in prices && prices[k] != price;
    }
    forall p
      ensures p in prices' <==> p in m[price := qty]
    {
      assert p in prices' <==> p in prices[..idx] || p == price || p in prices[idx..];
      assert prices == prices[..idx] + prices[idx..];
    }
  }

  lemma {:induction false} PriceErased(side: Side, prices: seq<u32>, m: LevelSpec.Levels, idx: nat)
    requires PricesOrdered(side, prices) && Lists(prices, m) && idx < |prices|
    ensures PricesOrdered(side, Erase(prices, idx)) && Lists(Erase(prices, idx), m - {prices[idx]})
  {
    var prices' := Erase(prices, idx);
    forall p
      ensures p in prices' <==> p in m - {prices[idx]}
    {
      assert p in prices' <==> p in prices[..idx] || p in prices[idx + 1..];
      assert prices == prices[..idx] + [prices[idx]] + prices[idx + 1..];
      if p in prices' {
        var i :| 0 <= i < |prices'| && prices'[i] == p;
        assert i < idx ==> LevelSpec.Better(side, prices[idx], prices[i]);
        assert i >= idx ==> LevelSpec.Better(side, prices[i + 1], prices[idx]);
      }
    }
  }

  lemma {:induction false} LastIsBest(side: Side, prices: seq<u32>, m: LevelSpec.Levels)
    requires PricesOrdered(side, prices) && Lists(prices, m)
    ensures prices == [] <==> m == map[]
    ensures prices != [] ==> prices[|prices| - 1] == LevelSpec.Best(side, m).price
  {
    if prices != [] {
      var last := prices[|prices| - 1];
      assert last in m;
      forall p | p in m
        ensures !LevelSpec.Better(side, p, last)
      {
        var i :| 0 <= i < |prices| && prices[i] == p;
      }
      assert LevelSpec.IsBest(side, m, Level(m[last], last));
      LevelSpec.BestUnique(side, m, LevelSpec.Best(side, m), Level(m[last], last));
    }
  }

  class HybridVectorMap {
    const side: Side
    var prices: seq<u32>
    var qtyByPrice: map<u32, u64>

    ghost predicate Valid()
      reads this
    {
      && PricesOrdered(side, prices)
      && Lists(prices, qtyByPrice)
      && Positive(qtyByPrice)
    }

    constructor (side: Side)
      ensures Valid() && qtyByPrice == map[] && this.side == side
    {
      this.side := side;
      prices := [];
      qtyByPrice := map[];
    }

    /** An addition that leaves quantity 0 at its price would list the price twice later on. */
    method Add(level: Level)
      requires Valid()
      modifies this
      ensures qtyByPrice == LevelSpec.AddLevel(old(qtyByPrice), level)
      ensures Valid() <==> qtyByPrice[level.price] > 0
    {
      var qty := LevelSpec.QtyAt(qtyByPrice, level.price);
      if qty != 0 {
        qtyByPrice := qtyByPrice[level.price := LevelSpec.Sum64(qty, level.qty)];
      } else {
        var idx := PriceLowerBound(side, prices, level.price);
        PriceInserted(side, prices, qtyByPrice, idx, level.price, level.qty);
        prices := Insert(prices, idx, level.price);
        qtyByPrice := qtyByPrice[level.price := level.qty];
      }
    }

    /** The third check of the code, that a price of the map is in the vector, never fails. */
    method Remove(level: Level) returns (r: Outcome<()>)
      requires Valid()
      modifies this
      ensures Valid()
      ensures
        match LevelSpec.RemoveLevel(old(qtyByPrice), level)
        case Abort(why) => r == Abort(why) && qtyByPrice == old(qtyByPrice)
        case Done(m) => r == Done(()) && qtyByPrice == m
    {
      if level.price !in qtyByPrice {
        return Abort(LevelNotFound);
      }
      if level.qty > qtyByPrice[level.price] {
        return Abort(LevelUnderflow);
      }
      ghost var before := qtyByPrice;
      qtyByPrice := qtyByPrice[level.price := qtyByPrice[level.price] - level.qty];
      if qtyByPrice[level.price] == 0 {
        var idx := PriceLowerBound(side, prices, level.price);
        PriceIsAt(side, prices, level.price, idx);
        PriceErased(side, prices, before, idx);
        qtyByPrice := qtyByPrice - {level.price};
        prices := Erase(prices, idx);
        assert qtyByPrice == before - {level.price};
      }
      r := Done(());
    }

    /** As written: the two fields of the level are swapped, and the quantity is cut to 32 bits. */
    function Best(): (l: Level)
      requires Valid()
      reads this
      ensures
        var best := LevelSpec.Best(side, qtyByPrice);
        l == Level(best.price, best.qty % TWO_TO_32)
    {
      LastIsBest(side, prices, qtyByPrice);
      if prices != [] then
        var price := prices[|prices| - 1];
        Level(price, qtyByPrice[price] % TWO_TO_32)
      else
        Level(0, 0)
    }
  }

  lemma {:induction false} PriceIsAt(side: Side, prices: seq<u32>, price: u32, idx: nat)
    requires PricesOrdered(side, prices) && IsPriceLowerBound(side, prices, price, idx) && price in prices
    ensures idx < |prices| && prices[idx] == price
  {
    var i :| 0 <= i < |prices| && prices[i] == price;
  }

  /** The answer as written is right exactly when the best level's quantity equals its price. */
  lemma {:induction false} SwappedIsRight(best: Level)
    ensures Level(best.price, best.qty % TWO_TO_32) == best <==> best.qty == best.price
  {
    assert best.qty < TWO_TO_32 ==> best.qty % TWO_TO_32 == best.qty;
  }

  /** After a single addition the answer has the quantity where the price belongs and the other way round. */
  method SwappedAnswer(side: Side, qty: u32, price: u32) returns (best: Level)
    requires qty > 0
    ensures best == Level(price, qty)
    ensures LevelSpec.Best(side, LevelsAfter([AddOp(Level(qty, price))])) == Level(qty, price)
  {
    var h := new HybridVectorMap(side);
    h.Add(Level(qty, price));
    var m: LevelSpec.Levels := map[price := qty];
    assert LevelSpec.IsBest(side, m, Level(qty, price));
    LevelSpec.BestUnique(side, m, LevelSpec.Best(side, m), Level(qty, price));
    var ops := [AddOp(Level(qty, price))];
    assert ops[..0] == [] && LevelsAfter(ops) == m;
    best := h.Best();
  }

  method HybridAfter(side: Side, ops: seq<LevelOp>) returns (m: LevelSpec.Levels)
    requires LegalRun(ops)
    ensures m == LevelsAfter(ops)
  {
    var h := new HybridVectorMap(side);
    for i := 0 to |ops|
      invariant h.Valid() && fresh(h) && h.qtyByPrice == LevelsAfter(ops[..i])
    {
      LegalPrefix(ops, i);
      match ops[i] {
        case AddOp(l) => h.Add(l);
        case RemoveOp(l) => var _ := h.Remove(l);
      }
    }
    assert ops[..|ops|] == ops;
    m := h.qtyByPrice;
  }
}
