/** What every level structure implements: a finite map from price to quantity for one side of the
    book, and its best level. */
module LevelSpec {
  import opened Bits
  import opened Shared

  type Levels = map<u32, u64>

  /** Bids are better the higher they are, asks the lower they are. */
  predicate Better(side: Side, a: u32, b: u32) {
    if side == Bid then a > b else a < b
  }

  function QtyAt(m: Levels, price: u32): u64 {
    if price in m then m[price] else 0
  }

  /** 64-bit addition. */
  function Sum64(a: u64, b: u64): (c: u64)
    ensures a + b < TWO_TO_64 ==> c == a + b
  {
    (a + b) % TWO_TO_64
  }

  function AddLevel(m: Levels, l: Level): Levels {
    m[l.price := Sum64(QtyAt(m, l.price), l.qty)]
  }

  function RemoveLevel(m: Levels, l: Level): Outcome<Levels> {
    if l.price !in m then Abort(LevelNotFound)
    else if l.qty > m[l.price] then Abort(LevelUnderflow)
    else if l.qty == m[l.price] then Done(m - {l.price})
    else Done(m[l.price := m[l.price] - l.qty])
  }

  predicate IsBest(side: Side, m: Levels, l: Level) {
    if m == map[] then l == Level(0, 0)
    else l.price in m && m[l.price] == l.qty && forall p | p in m :: !Better(side, p, l.price)
  }

  lemma BestUnique(side: Side, m: Levels, a: Level, b: Level)
    requires IsBest(side, m, a) && IsBest(side, m, b)
    ensures a == b
  {
  }

  lemma {:induction false} BestExists(side: Side, m: Levels)
    ensures exists l :: IsBest(side, m, l)
    decreases m
  {
    if m == map[] {
      assert IsBest(side, m, Level(0, 0));
    } else {
      var p :| p in m;
      var rest := m - {p};
      BestExists(side, rest);
      var b :| IsBest(side, rest, b);
      if rest == map[] || Better(side, p, b.price) {
        assert forall q | q in m :: q == p || q in rest;
        assert IsBest(side, m, Level(m[p], p));
      } else {
        assert forall q | q in m :: q == p || q in rest;
        assert IsBest(side, m, b);
      }
    }
  }

  /** The best level; `(0, 0)` for an empty side. */
  ghost function Best(side: Side, m: Levels): (l: Level)
    ensures IsBest(side, m, l)
  {
    BestExists(side, m);
    var l :| IsBest(side, m, l);
    l
  }

  // ----- The change reported to the caller -----

  /** The prices that are as good as `price` or better. */
  function AtLeast(side: Side, m: Levels, price: u32): set<u32> {
    set p | p in m && !Better(side, price, p)
  }

  function Notify(side: Side, best: Level): BestLvlChange {
    BestLvlChange(best.qty, best.price, side)
  }

  /** Adding reports the new best when at most one price was as good or better: the best price
      itself grew, a new best appeared, or a new second best appeared. */
  ghost function AddChange(side: Side, m: Levels, l: Level): BestLvlChange {
    if |AtLeast(side, m, l.price)| <= 1 then Notify(side, Best(side, AddLevel(m, l))) else NO_CHANGE
  }

  /** Removing reports the new best when the removed quantity was at the best price. */
  ghost function RemoveChange(side: Side, m: Levels, l: Level): BestLvlChange
    requires RemoveLevel(m, l).Done?
  {
    if l.price == Best(side, m).price then Notify(side, Best(side, RemoveLevel(m, l).value)) else NO_CHANGE
  }

  lemma {:induction false} FewAtLeastBest(side: Side, m: Levels)
    ensures |AtLeast(side, m, Best(side, m).price)| <= 1
  {
    var best := Best(side, m);
    assert AtLeast(side, m, best.price) <= {best.price};
    if AtLeast(side, m, best.price) != {} {
      assert AtLeast(side, m, best.price) == {best.price};
    }
  }

  /** Silence after an add means the best did not move. */
  lemma {:induction false} SilentAddKeepsBest(side: Side, m: Levels, l: Level)
    requires |AtLeast(side, m, l.price)| > 1
    ensures Best(side, AddLevel(m, l)) == Best(side, m)
  {
    FewAtLeastBest(side, m);
    var p :| p in AtLeast(side, m, l.price);
    assert IsBest(side, AddLevel(m, l), Best(side, m));
  }

  /** Silence after a removal means the best did not move. */
  lemma {:induction false} SilentRemoveKeepsBest(side: Side, m: Levels, l: Level)
    requires RemoveLevel(m, l).Done? && l.price != Best(side, m).price
    ensures Best(side, RemoveLevel(m, l).value) == Best(side, m)
  {
    var best := Best(side, m);
    var m' := RemoveLevel(m, l).value;
    assert best.price in m';
    assert IsBest(side, m', best);
  }
}
