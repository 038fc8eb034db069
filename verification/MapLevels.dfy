/** Price levels in a hash map, with the best price remembered beside it. */
module MapBooks {
  import opened Bits
  import opened Shared
  import opened LevelSpec
  import opened LevelRuns

  class MapLevels {
    const side: Side
    var bestIdx: u32
    var book: Levels

    /** No level is better than the remembered price, whether or not that price still has one. */
    ghost predicate Valid()
      reads this
    {
      forall p | p in book :: !Better(side, p, bestIdx)
    }

    constructor (side: Side)
      ensures Valid() && bestIdx == 0 && book == map[] && this.side == side
    {
      this.side := side;
      bestIdx := 0;
      book := map[];
    }

    /** The remembered price moves only to a better one. */
    method Add(level: Level)
      requires Valid()
      modifies this
      ensures Valid() && book == AddLevel(old(book), level)
      ensures bestIdx == if Better(side, level.price, old(bestIdx)) then level.price else old(bestIdx)
    {
      book := book[level.price := Sum64(QtyAt(book, level.price), level.qty)];
      if side == Bid {
        if level.price > bestIdx {
          bestIdx := level.price;
        }
      } else {
        if level.price < bestIdx {
          bestIdx := level.price;
        }
      }
    }

    /** When the remembered price loses its level, the next one is looked for, unless the side is empty. */
    method Remove(level: Level) returns (r: Outcome<()>)
      requires Valid()
      modifies this
      ensures Valid()
      ensures
        match RemoveLevel(old(book), level)
        case Abort(why) => r == Abort(why) && book == old(book)
        case Done(m) => r == Done(()) && book == m
      ensures old(bestIdx) in old(book) && book != map[] ==> bestIdx in book
      ensures book == map[] || old(bestIdx) !in old(book) ==> bestIdx == old(bestIdx)
    {
      if level.price !in book {
        return Abort(LevelNotFound);
      }
      if level.qty > book[level.price] {
        return Abort(LevelUnderflow);
      }
      if book[level.price] != level.qty {
        book := book[level.price := book[level.price] - level.qty];
        return Done(());
      }
      book := book - {level.price};
      if level.price == bestIdx && book != map[] {
        FindNext();
      }
      r := Done(());
    }

    /** The search ends at a level because there is one and none is better. */
    method FindNext()
      requires Valid() && book != map[]
      modifies this`bestIdx
      ensures Valid() && bestIdx in book
    {
      var p :| p in book;
      if side == Bid {
        while bestIdx !in book
          invariant Valid()
          decreases bestIdx
        {
          assert p < bestIdx;
          bestIdx := bestIdx - 1;
        }
      } else {
        while bestIdx !in book
          invariant Valid()
          decreases p - bestIdx
        {
          assert bestIdx < p;
          bestIdx := bestIdx + 1;
        }
      }
    }

    /** The answer is the best level exactly when the side is empty or the remembered price has a level. */
    method Best() returns (best: Level)
      requires Valid()
      ensures best == if bestIdx in book then Level(book[bestIdx], bestIdx) else Level(0, 0)
      ensures Positive(book) ==>
                (best == LevelSpec.Best(side, book) <==> book == map[] || bestIdx in book)
    {
      best := if bestIdx in book then Level(book[bestIdx], bestIdx) else Level(0, 0);
      if bestIdx in book {
        BestUnique(side, book, LevelSpec.Best(side, book), best);
      }
    }
  }

  /** The price remembered by a side that is empty after these operations: the one removed last, at first 0. */
  function LastPrice(ops: seq<LevelOp>): u32 {
    if ops == [] then 0 else ops[|ops| - 1].level.price
  }

  /** Operation `i` adds to an empty side, at a worse price than the one removed last, or than 0 at first. */
  predicate FallsBack(side: Side, ops: seq<LevelOp>, i: nat)
    requires i < |ops|
  {
    ops[i].AddOp? && LevelsAfter(ops[..i]) == map[] && Better(side, LastPrice(ops[..i]), ops[i].level.price)
  }

  predicate NeverFallsBack(side: Side, ops: seq<LevelOp>) {
    forall i: nat | i < |ops| :: !FallsBack(side, ops, i)
  }

  /** On the ask side nothing but a first addition at price 0 helps. */
  lemma {:induction false} AsksStartAtZero(ops: seq<LevelOp>)
    requires LegalRun(ops) && ops != [] && NeverFallsBack(Ask, ops)
    ensures ops[0].level.price == 0
  {
    LegalPrefix(ops, 0);
    assert !FallsBack(Ask, ops, 0);
  }

  lemma FallsBackPrefix(side: Side, ops: seq<LevelOp>, k: nat, j: nat)
    requires j < k <= |ops|
    ensures FallsBack(side, ops[..k], j) <==> FallsBack(side, ops, j)
  {
    assert ops[..k][..j] == ops[..j];
  }

  lemma NeverFallsBackStep(side: Side, ops: seq<LevelOp>, i: nat)
    requires i < |ops|
    ensures NeverFallsBack(side, ops[..i + 1]) <==> NeverFallsBack(side, ops[..i]) && !FallsBack(side, ops, i)
  {
    var now := ops[..i + 1];
    forall j: nat | j <= i
      ensures FallsBack(side, now, j) <==> FallsBack(side, ops, j)
      ensures j < i ==> (FallsBack(side, ops[..i], j) <==> FallsBack(side, ops, j))
    {
      FallsBackPrefix(side, ops, i + 1, j);
      if j < i {
        FallsBackPrefix(side, ops, i, j);
      }
    }
    if NeverFallsBack(side, now) {
      assert !FallsBack(side, now, i);
      forall j: nat | j < i
        ensures !FallsBack(side, ops[..i], j)
      {
        assert !FallsBack(side, now, j);
      }
    }
    if NeverFallsBack(side, ops[..i]) && !FallsBack(side, ops, i) {
      forall j: nat | j <= i
        ensures !FallsBack(side, now, j)
      {
        assert j < i ==> !FallsBack(side, ops[..i], j);
      }
    }
  }

  /** One more answer is right after right ones exactly when it is the best level. */
  lemma AnswersStep(side: Side, ops: seq<LevelOp>, i: nat, bests: seq<Level>, best: Level)
    requires LegalRun(ops) && i < |ops| && |bests| == i
    ensures bests + [best] == BestsAlong(side, Level(0, 0), ops[..i + 1])
       <==> bests == BestsAlong(side, Level(0, 0), ops[..i]) && best == BestOr(side, Level(0, 0), LevelsAfter(ops[..i + 1]))
  {
    BestsStep(side, Level(0, 0), ops, i);
    AlongLength(side, Level(0, 0), ops[..i]);
    var right, answer := BestsAlong(side, Level(0, 0), ops[..i]), BestOr(side, Level(0, 0), LevelsAfter(ops[..i + 1]));
    assert (bests + [best])[..i] == bests && (right + [answer])[..i] == right;
    assert (bests + [best])[i] == best && (right + [answer])[i] == answer;
  }

  /** Where a run without setbacks leaves the remembered price. */
  ghost predicate Remembers(levels: MapLevels, ops: seq<LevelOp>)
    reads levels
  {
    if levels.book == map[] then levels.bestIdx == LastPrice(ops) else levels.bestIdx in levels.book
  }

  /** The answer after a step is right exactly when that step does not fall back. */
  method Step(levels: MapLevels, ghost ops: seq<LevelOp>, ghost i: nat, op: LevelOp) returns (best: Level)
    requires levels.Valid() && i < |ops| && op == ops[i] && levels.book == LevelsAfter(ops[..i]) && Positive(levels.book)
    requires LegalOp(levels.book, op)
    modifies levels
    ensures levels.Valid() && levels.book == After(old(levels.book), op)
    ensures old(Remembers(levels, ops[..i])) ==>
              && (best == BestOr(levels.side, Level(0, 0), levels.book) <==> !FallsBack(levels.side, ops, i))
              && (!FallsBack(levels.side, ops, i) ==> Remembers(levels, ops[..i + 1]))
  {
    LegalOpKeepsPositive(levels.book, op);
    match op {
      case AddOp(l) => levels.Add(l);
      case RemoveOp(l) => var _ := levels.Remove(l);
    }
    best := levels.Best();
  }

  /** Over every legal run of one side, all answers are right if and only if the run never falls back. On the
      ask side that means that the first addition must be at price 0. */
  method MapBests(side: Side, ops: seq<LevelOp>) returns (bests: seq<Level>)
    requires LegalRun(ops)
    ensures bests == BestsAlong(side, Level(0, 0), ops) <==> NeverFallsBack(side, ops)
  {
    var levels := new MapLevels(side);
    bests := [];
    for i := 0 to |ops|
      invariant levels.Valid() && fresh(levels) && levels.side == side
      invariant levels.book == LevelsAfter(ops[..i])
      invariant |bests| == i
      invariant bests == BestsAlong(side, Level(0, 0), ops[..i]) <==> NeverFallsBack(side, ops[..i])
      invariant NeverFallsBack(side, ops[..i]) ==> Remembers(levels, ops[..i])
    {
      LegalPrefix(ops, i);
      NeverFallsBackStep(side, ops, i);
      var best := Step(levels, ops, i, ops[i]);
      AnswersStep(side, ops, i, bests, best);
      bests := bests + [best];
    }
    assert ops[..|ops|] == ops;
  }
}
