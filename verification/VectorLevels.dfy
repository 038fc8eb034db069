/** Price levels in one sorted vector, found by a scan from the best end or by binary search. */
module VectorLevels {
  import opened Shared
  import opened LevelRuns
  import LevelSpec
  import opened SortedLevels

  class VectorLevel {
    const side: Side
    var levels: seq<Level>

    ghost predicate Valid()
      reads this
    {
      Ordered(side, levels)
    }

    ghost function Contents(): LevelSpec.Levels
      requires Valid()
      reads this
    {
      ToMap(side, levels)
    }

    constructor (side: Side)
      ensures Valid() && Contents() == map[] && this.side == side
    {
      this.side := side;
      levels := [];
      new;
      EmptyMap(side);
    }

    /** Defined for a side that is not empty only. */
    function Best(): (l: Level)
      requires Valid() && levels != []
      reads this
      ensures l == LevelSpec.Best(side, Contents())
    {
      BestIsLast(side, levels);
      levels[|levels| - 1]
    }

    method Remove(level: Level) returns (r: Outcome<()>)
      requires Valid()
      modifies this
      ensures Valid()
      ensures
        match LevelSpec.RemoveLevel(old(Contents()), level)
        case Abort(why) => r == Abort(why) && levels == old(levels)
        case Done(m) => r == Done(()) && Contents() == m
    {
      var i := ScanForPrice(levels, level.price);
      if i == 0 {
        NoSuchLevel(side, levels, level);
        return Abort(LevelNotFound);
      }
      var idx := i - 1;
      LowerBoundAt(side, levels, idx);
      RemoveRefines(side, levels, idx, level);
      if level.qty > levels[idx].qty {
        return Abort(LevelUnderflow);
      }
      ghost var before := levels;
      levels := levels[idx := Level(levels[idx].qty - level.qty, levels[idx].price)];
      if levels[idx].qty == 0 {
        EraseUpdated(before, idx, levels[idx]);
        levels := Erase(levels, idx);
      }
      assert levels == RemoveAt(before, idx, level);
      r := Done(());
    }

    method Add(level: Level)
      requires Valid()
      modifies this
      ensures Valid() && Contents() == LevelSpec.AddLevel(old(Contents()), level)
    {
      var i := ScanPastBetter(side, levels, level.price);
      PastBetterIsLowerBound(side, levels, level.price, i);
      if i > 0 && levels[i - 1].price == level.price {
        AddRefines(side, levels, i - 1, level);
        levels := levels[i - 1 := Level(LevelSpec.Sum64(levels[i - 1].qty, level.qty), level.price)];
      } else {
        AddRefines(side, levels, i, level);
        levels := Insert(levels, i, level);
      }
    }
  }

  class VectorLevelBSearch {
    const side: Side
    var levels: seq<Level>

    ghost predicate Valid()
      reads this
    {
      Ordered(side, levels)
    }

    ghost function Contents(): LevelSpec.Levels
      requires Valid()
      reads this
    {
      ToMap(side, levels)
    }

    constructor (side: Side)
      ensures Valid() && Contents() == map[] && this.side == side
    {
      this.side := side;
      levels := [];
      new;
      EmptyMap(side);
    }

    function Best(): (l: Level)
      requires Valid()
      reads this
      ensures l == LevelSpec.Best(side, Contents())
    {
      BestIsLast(side, levels);
      if levels != [] then levels[|levels| - 1] else Level(0, 0)
    }

    method Remove(level: Level) returns (r: Outcome<()>)
      requires Valid()
      modifies this
      ensures Valid()
      ensures
        match LevelSpec.RemoveLevel(old(Contents()), level)
        case Abort(why) => r == Abort(why) && levels == old(levels)
        case Done(m) => r == Done(()) && Contents() == m
    {
      var idx := LowerBound(side, levels, level.price);
      RemoveRefines(side, levels, idx, level);
      if idx == |levels| || levels[idx].price != level.price {
        return Abort(LevelNotFound);
      }
      if level.qty > levels[idx].qty {
        return Abort(LevelUnderflow);
      }
      ghost var before := levels;
      levels := levels[idx := Level(levels[idx].qty - level.qty, levels[idx].price)];
      if levels[idx].qty == 0 {
        EraseUpdated(before, idx, levels[idx]);
        levels := Erase(levels, idx);
      }
      assert levels == RemoveAt(before, idx, level);
      r := Done(());
    }

    method Add(level: Level)
      requires Valid()
      modifies this
      ensures Valid() && Contents() == LevelSpec.AddLevel(old(Contents()), level)
    {
      var idx := LowerBound(side, levels, level.price);
      AddRefines(side, levels, idx, level);
      if idx < |levels| && levels[idx].price == level.price {
        levels := levels[idx := Level(LevelSpec.Sum64(levels[idx].qty, level.qty), level.price)];
      } else {
        levels := Insert(levels, idx, level);
      }
    }
  }

  /** A side that is empty is not asked. */
  method VectorBests(side: Side, ops: seq<LevelOp>) returns (bests: seq<Level>)
    requires LegalRun(ops)
    ensures bests == BestsAlong(side, Level(0, 0), ops)
  {
    var v := new VectorLevel(side);
    bests := [];
    for i := 0 to |ops|
      invariant v.Valid() && fresh(v) && v.Contents() == LevelsAfter(ops[..i])
      invariant bests == BestsAlong(side, Level(0, 0), ops[..i])
    {
      LegalPrefix(ops, i);
      BestsStep(side, Level(0, 0), ops, i);
      match ops[i] {
        case AddOp(l) => v.Add(l);
        case RemoveOp(l) => var _ := v.Remove(l);
      }
      LevelCount(side, v.levels);
      var best := if v.levels == [] then Level(0, 0) else v.Best();
      bests := bests + [best];
    }
    assert ops[..|ops|] == ops;
  }

  method VectorBSearchBests(side: Side, ops: seq<LevelOp>) returns (bests: seq<Level>)
    requires LegalRun(ops)
    ensures bests == BestsAlong(side, Level(0, 0), ops)
  {
    var v := new VectorLevelBSearch(side);
    bests := [];
    for i := 0 to |ops|
      invariant v.Valid() && fresh(v) && v.Contents() == LevelsAfter(ops[..i])
      invariant bests == BestsAlong(side, Level(0, 0), ops[..i])
    {
      LegalPrefix(ops, i);
      BestsStep(side, Level(0, 0), ops, i);
      match ops[i] {
        case AddOp(l) => v.Add(l);
        case RemoveOp(l) => var _ := v.Remove(l);
      }
      bests := bests + [v.Best()];
    }
    assert ops[..|ops|] == ops;
  }
}
