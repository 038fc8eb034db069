/** Price levels indexed directly by price, with the index of the best one moved along. */
module ArrayLevelsV2s {
  import opened Bits
  import opened Shared
  import opened LevelSpec
  import opened LevelRuns

  const N: nat := 2_000_000

  /** Where the best index rests when nothing is left. */
  function Sentinel(side: Side): u32 {
    if side == Bid then 0 else N - 1
  }

  /** Taking quantity off without asking whether there is a level. */
  function TakeOff(m: Levels, l: Level): Outcome<Levels> {
    if l.qty > QtyAt(m, l.price) then Abort(LevelUnderflow)
    else Done(Live(m[l.price := QtyAt(m, l.price) - l.qty]))
  }

  /** On a level that is there, taking off is removing; without it only quantity 0 can be taken off. */
  lemma {:induction false} TakeOffIsRemove(m: Levels, l: Level)
    requires Positive(m)
    ensures l.price in m ==> TakeOff(m, l) == RemoveLevel(m, l)
    ensures l.price !in m ==> TakeOff(m, l) == if l.qty == 0 then Done(m) else Abort(LevelUnderflow)
  {
    if l.price in m && l.qty < m[l.price] {
      LiveOfPositive(m[l.price := m[l.price] - l.qty]);
    } else if l.price in m && l.qty == m[l.price] {
      assert Live(m[l.price := 0]) == m - {l.price};
    } else if l.qty == 0 {
      assert Live(m[l.price := 0]) == m;
    }
  }

  class ArrayLevelsV2 {
    const side: Side
    const book: array<u64>
    var bestIdx: u32
    /** The prices that have something left. */
    ghost var contents: Levels

    /** No price better than the best index has anything left. */
    ghost predicate Valid()
      reads this, book
    {
      && book.Length == N && bestIdx < N
      && Mirrors()
      && forall p | p in contents :: !Better(side, p, bestIdx)
    }

    ghost predicate Mirrors()
      reads this, book
    {
      && book.Length <= TWO_TO_32
      && (forall p | p in contents :: p < book.Length && contents[p] > 0)
      && (forall p | 0 <= p < book.Length :: book[p] == QtyAt(contents, p))
    }

    /** The best index is at a level, or at rest. */
    ghost predicate AtBest()
      reads this
    {
      bestIdx in contents || bestIdx == Sentinel(side)
    }

    constructor (side: Side)
      ensures Valid() && AtBest() && fresh(book) && contents == map[] && this.side == side
    {
      this.side := side;
      book := new u64[N](_ => 0);
      bestIdx := Sentinel(side);
      contents := map[];
    }

    method Store(price: nat, qty: u64)
      requires price < book.Length && Mirrors()
      modifies this`contents, book
      ensures Mirrors() && contents == Live(old(contents)[price := qty])
    {
      book[price] := qty;
      contents := Live(contents[price := qty]);
    }

    /** Prices beyond the array are ignored, but the guard lets the first of them through to a slot that is
        not there. An addition that leaves nothing at its price, because nothing was added or the sum
        wrapped around, takes the best index off the best level exactly when the price is at least as good
        as the best one. */
    method Add(level: Level) returns (r: Outcome<()>)
      requires Valid()
      modifies this, book
      ensures Valid()
      ensures r == if level.price == 2_000_000 then Abort(OutOfBounds) else Done(())
      ensures contents == if level.price >= 2_000_000 then old(contents) else Live(AddLevel(old(contents), level))
      ensures level.price >= 2_000_000 ==> bestIdx == old(bestIdx)
      ensures old(AtBest()) && level.price < 2_000_000 ==>
                (AtBest() <==> level.price in contents || Better(side, old(bestIdx), level.price)
                               || level.price == old(bestIdx) == Sentinel(side))
    {
      if level.price > N {
        return Done(());
      }
      if level.price == N {
        return Abort(OutOfBounds);
      }
      Store(level.price, Sum64(book[level.price], level.qty));
      if side == Bid {
        if level.price > bestIdx {
          bestIdx := level.price;
        }
      } else {
        if level.price < bestIdx {
          bestIdx := level.price;
        }
      }
      r := Done(());
    }

    method Remove(level: Level) returns (r: Outcome<()>)
      requires Valid()
      modifies this, book
      ensures Valid()
      ensures old(AtBest()) ==> AtBest()
      ensures
        if level.price > 2_000_000 then r == Done(()) && contents == old(contents)
        else if level.price == 2_000_000 then r == Abort(OutOfBounds) && contents == old(contents)
        else
          match TakeOff(old(contents), level)
          case Abort(why) => r == Abort(why) && contents == old(contents)
          case Done(m) => r == Done(()) && contents == m
    {
      if level.price > N {
        return Done(());
      }
      if level.price == N {
        return Abort(OutOfBounds);
      }
      var qty := book[level.price];
      if level.qty > qty {
        return Abort(LevelUnderflow);
      }
      Store(level.price, qty - level.qty);
      if qty == level.qty && level.price == bestIdx {
        FindBest();
      }
      r := Done(());
    }

    /** Moves the best index to the next level, or to its rest. */
    method FindBest()
      requires Valid()
      modifies this`bestIdx
      ensures Valid() && AtBest()
    {
      if side == Bid {
        while bestIdx > 0 && book[bestIdx] == 0
          invariant Valid()
        {
          bestIdx := bestIdx - 1;
        }
      } else {
        while bestIdx < N - 1 && book[bestIdx] == 0
          invariant Valid()
        {
          bestIdx := bestIdx + 1;
        }
      }
    }

    method Best() returns (best: Level)
      requires Valid()
      ensures best == Level(QtyAt(contents, bestIdx), bestIdx)
      ensures AtBest() ==> best == BestOr(side, Level(0, Sentinel(side)), contents)
    {
      best := Level(book[bestIdx], bestIdx);
      if AtBest() && contents != map[] {
        var b := LevelSpec.Best(side, contents);
        assert bestIdx in contents;
        BestUnique(side, contents, b, best);
      }
    }
  }

  method Step(levels: ArrayLevelsV2, op: LevelOp)
    requires levels.Valid() && levels.AtBest() && Positive(levels.contents) && Positive(After(levels.contents, op))
    requires LegalOp(levels.contents, op) && op.level.price < N
    modifies levels, levels.book
    ensures levels.Valid() && levels.AtBest() && levels.contents == After(old(levels.contents), op)
  {
    TakeOffIsRemove(levels.contents, op.level);
    LiveOfPositive(After(levels.contents, op));
    match op {
      case AddOp(l) => var _ := levels.Add(l);
      case RemoveOp(l) => var _ := levels.Remove(l);
    }
  }

  method V2Bests(side: Side, ops: seq<LevelOp>) returns (bests: seq<Level>)
    requires LegalRun(ops) && forall i | 0 <= i < |ops| :: ops[i].level.price < 2_000_000
    ensures bests == BestsAlong(side, Level(0, if side == Bid then 0 else 1_999_999), ops)
  {
    var levels := new ArrayLevelsV2(side);
    bests := [];
    for i := 0 to |ops|
      invariant levels.Valid() && levels.AtBest() && fresh(levels) && fresh(levels.book)
      invariant levels.contents == LevelsAfter(ops[..i])
      invariant bests == BestsAlong(side, Level(0, Sentinel(side)), ops[..i])
    {
      LegalPrefix(ops, i);
      BestsStep(side, Level(0, Sentinel(side)), ops, i);
      Step(levels, ops[i]);
      var best := levels.Best();
      bests := bests + [best];
    }
    assert ops[..|ops|] == ops;
  }
}
