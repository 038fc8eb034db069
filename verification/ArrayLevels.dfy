/** Price levels in a fixed array, shifted in place. */
module ArrayLevels {
  import opened Shared
  import opened LevelRuns
  import LevelSpec
  import opened SortedLevels

  const CAPACITY: nat := 3000

  /** `std::move_backward`: makes room at `idx` among the first `size` levels. */
  method ShiftUp(a: array<Level>, idx: nat, size: nat)
    requires idx <= size < a.Length
    modifies a
    ensures forall k | 0 <= k < a.Length && !(idx < k <= size) :: a[k] == old(a[k])
    ensures forall k | idx < k <= size :: a[k] == old(a[k - 1])
  {
    var k := size;
    while k > idx
      invariant idx <= k <= size
      invariant forall j | 0 <= j < a.Length && !(k < j <= size) :: a[j] == old(a[j])
      invariant forall j | k < j <= size :: a[j] == old(a[j - 1])
    {
      a[k] := a[k - 1];
      k := k - 1;
    }
  }

  /** `std::move`: closes the gap at `idx` among the first `size` levels. */
  method ShiftDown(a: array<Level>, idx: nat, size: nat)
    requires idx < size <= a.Length
    modifies a
    ensures forall k | 0 <= k < a.Length && !(idx <= k < size - 1) :: a[k] == old(a[k])
    ensures forall k | idx <= k < size - 1 :: a[k] == old(a[k + 1])
  {
    var k := idx;
    while k < size - 1
      invariant idx <= k <= size - 1
      invariant forall j | 0 <= j < a.Length && !(idx <= j < k) :: a[j] == old(a[j])
      invariant forall j | idx <= j < k :: a[j] == old(a[j + 1])
    {
      a[k] := a[k + 1];
      k := k + 1;
    }
  }

  /** What `add` does to the first `size` levels once it knows the lower bound of the price. */
  method AddIn(a: array<Level>, idx: nat, size: nat, level: Level) returns (size': nat)
    requires idx <= size < a.Length
    modifies a
    ensures size' <= a.Length && a[..size'] == AddAt(old(a[..size]), idx, level)
  {
    if idx < size && a[idx].price == level.price {
      a[idx] := Level(LevelSpec.Sum64(a[idx].qty, level.qty), level.price);
      return size;
    }
    ShiftUp(a, idx, size);
    a[idx] := level;
    size' := size + 1;
  }

  /** What `remove` does once it has found the level and checked its quantity. */
  method RemoveIn(a: array<Level>, idx: nat, size: nat, level: Level) returns (size': nat)
    requires idx < size <= a.Length && a[idx].price == level.price && level.qty <= a[idx].qty
    modifies a
    ensures size' <= size && a[..size'] == RemoveAt(old(a[..size]), idx, level)
  {
    a[idx] := Level(a[idx].qty - level.qty, a[idx].price);
    if a[idx].qty > 0 {
      return size;
    }
    ShiftDown(a, idx, size);
    size' := size - 1;
  }

  class ArrayLevel {
    const side: Side
    const levels: array<Level>
    var size: nat

    ghost predicate Valid()
      reads this, levels
    {
      && levels.Length == CAPACITY && size <= CAPACITY
      && Ordered(side, levels[..size])
    }

    ghost function Contents(): LevelSpec.Levels
      requires Valid()
      reads this, levels
    {
      ToMap(side, levels[..size])
    }

    constructor (side: Side)
      ensures Valid() && fresh(levels) && Contents() == map[] && this.side == side
    {
      this.side := side;
      levels := new Level[CAPACITY](_ => Level(0, 0));
      size := 0;
      new;
      EmptyMap(side);
    }

    /** Defined for a side that is not empty only. */
    function Best(): (l: Level)
      requires Valid() && size > 0
      reads this, levels
      ensures l == LevelSpec.Best(side, Contents())
    {
      BestIsLast(side, levels[..size]);
      levels[size - 1]
    }

    /** Aborts whenever the array is full, even when the price already has a level. */
    method Add(level: Level) returns (r: Outcome<()>)
      requires Valid()
      modifies this`size, levels
      ensures Valid()
      ensures r == if |old(Contents())| == 3000 then Abort(CapacityExceeded) else Done(())
      ensures Contents() == if r.Done? then LevelSpec.AddLevel(old(Contents()), level) else old(Contents())
    {
      LevelCount(side, levels[..size]);
      if size == CAPACITY {
        return Abort(CapacityExceeded);
      }
      var idx := ScanToAsGood(side, levels[..size], level.price);
      AddRefines(side, levels[..size], idx, level);
      size := AddIn(levels, idx, size, level);
      r := Done(());
    }

    method Remove(level: Level) returns (r: Outcome<()>)
      requires Valid()
      modifies this`size, levels
      ensures Valid()
      ensures
        match LevelSpec.RemoveLevel(old(Contents()), level)
        case Abort(why) => r == Abort(why) && Contents() == old(Contents())
        case Done(m) => r == Done(()) && Contents() == m
    {
      var i := ScanForPrice(levels[..size], level.price);
      if i == 0 {
        NoSuchLevel(side, levels[..size], level);
        return Abort(LevelNotFound);
      }
      LowerBoundAt(side, levels[..size], i - 1);
      RemoveRefines(side, levels[..size], i - 1, level);
      if level.qty > levels[i - 1].qty {
        return Abort(LevelUnderflow);
      }
      size := RemoveIn(levels, i - 1, size, level);
      r := Done(());
    }
  }

  class ArrayLevelBSearch {
    const side: Side
    const levels: array<Level>
    var size: nat

    ghost predicate Valid()
      reads this, levels
    {
      && levels.Length == CAPACITY && size <= CAPACITY
      && Ordered(side, levels[..size])
    }

    ghost function Contents(): LevelSpec.Levels
      requires Valid()
      reads this, levels
    {
      ToMap(side, levels[..size])
    }

    constructor (side: Side)
      ensures Valid() && fresh(levels) && Contents() == map[] && this.side == side
    {
      this.side := side;
      levels := new Level[CAPACITY](_ => Level(0, 0));
      size := 0;
      new;
      EmptyMap(side);
    }

    /** Defined for a side that is not empty only. */
    function Best(): (l: Level)
      requires Valid() && size > 0
      reads this, levels
      ensures l == LevelSpec.Best(side, Contents())
    {
      BestIsLast(side, levels[..size]);
      levels[size - 1]
    }

    /** Aborts whenever the array is full, even when the price already has a level. */
    method Add(level: Level) returns (r: Outcome<()>)
      requires Valid()
      modifies this`size, levels
      ensures Valid()
      ensures r == if |old(Contents())| == 3000 then Abort(CapacityExceeded) else Done(())
      ensures Contents() == if r.Done? then LevelSpec.AddLevel(old(Contents()), level) else old(Contents())
    {
      LevelCount(side, levels[..size]);
      if size == CAPACITY {
        return Abort(CapacityExceeded);
      }
      var idx := LowerBound(side, levels[..size], level.price);
      AddRefines(side, levels[..size], idx, level);
      size := AddIn(levels, idx, size, level);
      r := Done(());
    }

    method Remove(level: Level) returns (r: Outcome<()>)
      requires Valid()
      modifies this`size, levels
      ensures Valid()
      ensures
        match LevelSpec.RemoveLevel(old(Contents()), level)
        case Abort(why) => r == Abort(why) && Contents() == old(Contents())
        case Done(m) => r == Done(()) && Contents() == m
    {
      var idx := LowerBound(side, levels[..size], level.price);
      RemoveRefines(side, levels[..size], idx, level);
      if idx == size || levels[idx].price != level.price {
        return Abort(LevelNotFound);
      }
      if level.qty > levels[idx].qty {
        return Abort(LevelUnderflow);
      }
      size := RemoveIn(levels, idx, size, level);
      r := Done(());
    }
  }

  /** No addition of the run finds the array full. */
  predicate FitsArray(ops: seq<LevelOp>) {
    forall i | 0 <= i < |ops| :: ops[i].AddOp? ==> |LevelsAfter(ops[..i])| < CAPACITY
  }

  /** A side that is empty is not asked. */
  method ArrayBests(side: Side, ops: seq<LevelOp>) returns (bests: seq<Level>)
    requires LegalRun(ops) && FitsArray(ops)
    ensures bests == BestsAlong(side, Level(0, 0), ops)
  {
    var a := new ArrayLevel(side);
    bests := [];
    for i := 0 to |ops|
      invariant a.Valid() && fresh(a) && fresh(a.levels) && a.Contents() == LevelsAfter(ops[..i])
      invariant bests == BestsAlong(side, Level(0, 0), ops[..i])
    {
      LegalPrefix(ops, i);
      BestsStep(side, Level(0, 0), ops, i);
      match ops[i] {
        case AddOp(l) => var _ := a.Add(l);
        case RemoveOp(l) => var _ := a.Remove(l);
      }
      LevelCount(side, a.levels[..a.size]);
      var best := if a.size == 0 then Level(0, 0) else a.Best();
      bests := bests + [best];
    }
    assert ops[..|ops|] == ops;
  }

  /** A side that is empty is not asked. */
  method ArrayBSearchBests(side: Side, ops: seq<LevelOp>) returns (bests: seq<Level>)
    requires LegalRun(ops) && FitsArray(ops)
    ensures bests == BestsAlong(side, Level(0, 0), ops)
  {
    var a := new ArrayLevelBSearch(side);
    bests := [];
    for i := 0 to |ops|
      invariant a.Valid() && fresh(a) && fresh(a.levels) && a.Contents() == LevelsAfter(ops[..i])
      invariant bests == BestsAlong(side, Level(0, 0), ops[..i])
    {
      LegalPrefix(ops, i);
      BestsStep(side, Level(0, 0), ops, i);
      match ops[i] {
        case AddOp(l) => var _ := a.Add(l);
        case RemoveOp(l) => var _ := a.Remove(l);
      }
      LevelCount(side, a.levels[..a.size]);
      var best := if a.size == 0 then Level(0, 0) else a.Best();
      bests := bests + [best];
    }
    assert ops[..|ops|] == ops;
  }
}
