/** Runs of additions and removals on one side, and what any level structure must answer after one. */
module LevelRuns {
  import opened Bits
  import opened Shared
  import opened LevelSpec

  datatype LevelOp = AddOp(level: Level) | RemoveOp(level: Level)

  function After(m: Levels, op: LevelOp): Levels {
    match op
    case AddOp(l) => AddLevel(m, l)
    case RemoveOp(l) => if RemoveLevel(m, l).Done? then RemoveLevel(m, l).value else m
  }

  function LevelsAfter(ops: seq<LevelOp>): Levels {
    if ops == [] then map[] else After(LevelsAfter(ops[..|ops| - 1]), ops[|ops| - 1])
  }

  /** Something is added and the sum fits, or the level removed from has enough. */
  predicate LegalOp(m: Levels, op: LevelOp) {
    match op
    case AddOp(l) => l.qty > 0 && QtyAt(m, l.price) + l.qty < TWO_TO_64
    case RemoveOp(l) => RemoveLevel(m, l).Done?
  }

  predicate LegalRun(ops: seq<LevelOp>) {
    ops == [] || (LegalRun(ops[..|ops| - 1]) && LegalOp(LevelsAfter(ops[..|ops| - 1]), ops[|ops| - 1]))
  }

  predicate Positive(m: Levels) {
    forall p | p in m :: m[p] > 0
  }

  /** The prices that have something left. */
  function Live(m: Levels): Levels {
    map p | p in m && m[p] > 0 :: m[p]
  }

  lemma LiveOfPositive(m: Levels)
    requires Positive(m)
    ensures Live(m) == m
  {
  }

  lemma LegalOpKeepsPositive(m: Levels, op: LevelOp)
    requires Positive(m) && LegalOp(m, op)
    ensures Positive(After(m, op))
  {
  }

  lemma {:induction false} LegalRunIsPositive(ops: seq<LevelOp>)
    requires LegalRun(ops)
    ensures Positive(LevelsAfter(ops))
    decreases |ops|
  {
    if ops == [] {
    } else {
      var before := ops[..|ops| - 1];
      LegalRunIsPositive(before);
      LegalOpKeepsPositive(LevelsAfter(before), ops[|ops| - 1]);
    }
  }

  /** Every step of a legal run is legal where it happens. */
  lemma {:induction false} LegalPrefix(ops: seq<LevelOp>, i: nat)
    requires LegalRun(ops) && i < |ops|
    ensures LegalRun(ops[..i]) && LegalOp(LevelsAfter(ops[..i]), ops[i])
    ensures LevelsAfter(ops[..i + 1]) == After(LevelsAfter(ops[..i]), ops[i])
    ensures Positive(LevelsAfter(ops[..i]))
    decreases |ops|
  {
    var before := ops[..|ops| - 1];
    if i < |before| {
      LegalPrefix(before, i);
      assert before[..i] == ops[..i] && before[..i + 1] == ops[..i + 1];
    } else {
      assert ops[..i + 1] == ops;
      LegalRunIsPositive(before);
    }
  }

  /** The best level, or what a structure answers for an empty side. */
  ghost function BestOr(side: Side, empty: Level, m: Levels): Level {
    if m == map[] then empty else Best(side, m)
  }

  /** The answers after each step of a run. */
  ghost function BestsAlong(side: Side, empty: Level, ops: seq<LevelOp>): seq<Level> {
    if ops == [] then []
    else BestsAlong(side, empty, ops[..|ops| - 1]) + [BestOr(side, empty, LevelsAfter(ops))]
  }

  lemma {:induction false} BestsStep(side: Side, empty: Level, ops: seq<LevelOp>, i: nat)
    requires LegalRun(ops) && i < |ops|
    ensures BestsAlong(side, empty, ops[..i + 1]) == BestsAlong(side, empty, ops[..i]) + [BestOr(side, empty, LevelsAfter(ops[..i + 1]))]
    ensures Positive(LevelsAfter(ops[..i + 1])) && Live(LevelsAfter(ops[..i + 1])) == LevelsAfter(ops[..i + 1])
  {
    LegalPrefix(ops, i);
    LegalOpKeepsPositive(LevelsAfter(ops[..i]), ops[i]);
    assert ops[..i + 1][..i] == ops[..i];
  }

  /** Answers for the same run differ only where the side is empty. */
  lemma {:induction false} AnswersAgree(side: Side, a: Level, b: Level, ops: seq<LevelOp>, i: nat)
    requires i < |ops| && LevelsAfter(ops[..i + 1]) != map[]
    ensures |BestsAlong(side, a, ops)| == |BestsAlong(side, b, ops)| == |ops|
    ensures BestsAlong(side, a, ops)[i] == BestsAlong(side, b, ops)[i] == Best(side, LevelsAfter(ops[..i + 1]))
    decreases |ops|
  {
    var before := ops[..|ops| - 1];
    if i < |before| {
      assert before[..i + 1] == ops[..i + 1];
      AnswersAgree(side, a, b, before, i);
    } else {
      assert ops[..i + 1] == ops;
      AlongLength(side, a, before);
      AlongLength(side, b, before);
    }
  }

  lemma {:induction false} AlongLength(side: Side, empty: Level, ops: seq<LevelOp>)
    ensures |BestsAlong(side, empty, ops)| == |ops|
    decreases |ops|
  {
    if ops == [] {
    } else {
      AlongLength(side, empty, ops[..|ops| - 1]);
    }
  }
}
