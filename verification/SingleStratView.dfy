/** What the strategy behind the single-consumer queue reconstructs. */
module SingleStratView {
  import opened Bits
  import opened Words
  import opened Shared
  import opened BookSpec
  import opened BookTheorems
  import opened SingleStratSpec
  import SingleStratBooks
  import SpscSteps

  function DecodeSide(code: nat): Side {
    if code == 66 then Bid else if code == 83 then Ask else if code == 1 then Unknown else NoSide
  }

  /** A change read back from the words of a queue slot. */
  function Decode(words: seq<nat>): BestLvlChange {
    if |words| == 3 && words[0] < TWO_TO_64 && words[1] < TWO_TO_32
    then BestLvlChange(words[0], words[1], DecodeSide(words[2]))
    else NO_CHANGE
  }

  lemma {:induction false} DecodeEncode(change: BestLvlChange)
    ensures Decode(SingleStratBooks.Encode(change)) == change
  {
  }

  /** Leaving out the empty changes makes no difference to an observer. */
  lemma {:induction false} ObservePushed(v: View, changes: seq<BestLvlChange>)
    ensures ObserveAll(v, AllPushed(changes)) == ObserveAll(v, changes)
    decreases |changes|
  {
    if changes == [] {
    } else {
      var before, last := changes[..|changes| - 1], changes[|changes| - 1];
      ObservePushed(v, before);
      if last.side != NoSide {
        assert (AllPushed(before) + [last])[..|AllPushed(before)|] == AllPushed(before);
      } else {
        assert AllPushed(before) + [] == AllPushed(before);
      }
    }
  }

  /** The changes that a run has pushed. */
  ghost function PushedBy(ops: seq<BookOp>): seq<BestLvlChange>
    requires RunSingle(EMPTY_BOOK, ops).Done?
  {
    RunSingle(EMPTY_BOOK, ops).value.changes
  }

  ghost function TopAfter(ops: seq<BookOp>): View
    requires RunSingle(EMPTY_BOOK, ops).Done?
  {
    TrueView(RunSingle(EMPTY_BOOK, ops).value.book)
  }

  ghost predicate HasPushed(ops: seq<BookOp>, k: nat) {
    RunSingle(EMPTY_BOOK, ops).Done? && |PushedBy(ops)| == k
  }

  /** `v` shows the bests as of push number `k`: the run has moments at which exactly `k` changes had been
      pushed, and at every one of them the book's bests were those of `v`. */
  ghost predicate TopAsOfPush(ops: seq<BookOp>, k: nat, v: View) {
    && (exists n: nat :: n <= |ops| && HasPushed(ops[..n], k))
    && (forall n: nat :: n <= |ops| && HasPushed(ops[..n], k) ==> TopAfter(ops[..n]) == v)
  }

  /** Hearing what an operation pushed keeps a view true, whatever happens to the orders. */
  lemma {:induction false} PushKeepsView(b: BookState, op: BookOp)
    requires SingleUpdate(b, op).Done?
    ensures Observe(TrueView(b), SingleUpdate(b, op).value.change) == TrueView(SingleUpdate(b, op).value.book)
  {
    SameAborts(b, op);
    SameExactlyForDistinctIds(b, op);
    ObserveStaysTrue(b, op);
  }

  /** One operation pushes at most one change, and a view that was true is true after hearing it. */
  lemma {:induction false} PushStep(ops: seq<BookOp>, len: nat)
    requires ops != [] && len == |ops| - 1 && RunSingle(EMPTY_BOOK, ops).Done?
    ensures RunSingle(EMPTY_BOOK, ops[..len]).Done?
    ensures PushedBy(ops[..len]) <= PushedBy(ops) && |PushedBy(ops)| <= |PushedBy(ops[..len])| + 1
    ensures
      if |PushedBy(ops)| == |PushedBy(ops[..len])| then TopAfter(ops) == TopAfter(ops[..len])
      else TopAfter(ops) == Observe(TopAfter(ops[..len]), PushedBy(ops)[|PushedBy(ops)| - 1])
  {
    PushKeepsView(RunSingle(EMPTY_BOOK, ops[..len]).value.book, ops[len]);
  }

  /** All that a run has pushed gives the present bests. */
  lemma {:induction false} CurrentIsTop(ops: seq<BookOp>)
    requires RunSingle(EMPTY_BOOK, ops).Done?
    ensures ObserveAll(INITIAL_VIEW, PushedBy(ops)) == TopAfter(ops)
    decreases |ops|
  {
    if ops == [] {
      EmptyView();
    } else {
      var len := |ops| - 1;
      PushStep(ops, len);
      CurrentIsTop(ops[..len]);
      ObserveMore(INITIAL_VIEW, PushedBy(ops[..len]), PushedBy(ops));
    }
  }

  lemma ObserveMore(v: View, before: seq<BestLvlChange>, after: seq<BestLvlChange>)
    requires before <= after && |after| <= |before| + 1
    ensures ObserveAll(v, after) == if after == before then ObserveAll(v, before)
                                    else Observe(ObserveAll(v, before), after[|after| - 1])
  {
    if after != before {
      assert after[..|after| - 1] == before;
    }
  }

  lemma PrefixTransitive<T>(a: seq<T>, b: seq<T>, c: seq<T>)
    requires a <= b <= c
    ensures a <= c
  {
  }

  lemma {:induction false} PushesOnlyGrow(ops: seq<BookOp>, n: nat)
    requires RunSingle(EMPTY_BOOK, ops).Done? && n <= |ops|
    ensures RunSingle(EMPTY_BOOK, ops[..n]).Done? && PushedBy(ops[..n]) <= PushedBy(ops)
    decreases |ops|
  {
    if n == |ops| {
      assert ops[..n] == ops;
    } else {
      var len := |ops| - 1;
      var before := ops[..len];
      assert before[..n] == ops[..n];
      PushStep(ops, len);
      PushesOnlyGrow(before, n);
      PrefixTransitive(PushedBy(before[..n]), PushedBy(before), PushedBy(ops));
    }
  }

  lemma NothingPushed(ops: seq<BookOp>, k: nat)
    requires RunSingle(EMPTY_BOOK, ops).Done? && k < |PushedBy(ops)|
    ensures ops != []
  {
  }

  lemma EarlierMoment(ops: seq<BookOp>, len: nat, k: nat)
    requires len <= |ops| && exists n: nat :: n <= len && HasPushed(ops[..len][..n], k)
    ensures exists n: nat :: n <= |ops| && HasPushed(ops[..n], k)
  {
    var n: nat :| n <= len && HasPushed(ops[..len][..n], k);
    assert ops[..len][..n] == ops[..n];
  }

  lemma {:induction false} EveryPushHasAMoment(ops: seq<BookOp>, k: nat)
    requires RunSingle(EMPTY_BOOK, ops).Done? && k <= |PushedBy(ops)|
    ensures exists n: nat :: n <= |ops| && HasPushed(ops[..n], k)
    decreases |ops|
  {
    if k == |PushedBy(ops)| {
      assert ops[..|ops|] == ops;
      assert HasPushed(ops[..|ops|], k);
    } else {
      var len := |ops| - 1;
      NothingPushed(ops, k);
      PushStep(ops, len);
      EveryPushHasAMoment(ops[..len], k);
      EarlierMoment(ops, len, k);
    }
  }

  /** The first `k` pushed changes give the bests as of push number `k`, for every `k`. */
  lemma {:induction false} PrefixesAreTruthful(ops: seq<BookOp>, k: nat)
    requires RunSingle(EMPTY_BOOK, ops).Done? && k <= |PushedBy(ops)|
    ensures TopAsOfPush(ops, k, ObserveAll(INITIAL_VIEW, PushedBy(ops)[..k]))
  {
    EveryPushHasAMoment(ops, k);
    forall n: nat | n <= |ops| && HasPushed(ops[..n], k)
      ensures ObserveAll(INITIAL_VIEW, PushedBy(ops)[..k]) == TopAfter(ops[..n])
    {
      PushesOnlyGrow(ops, n);
      assert PushedBy(ops)[..k] == PushedBy(ops[..n]);
      CurrentIsTop(ops[..n]);
    }
  }

  /** In every interleaving of the two threads, and whatever part of the run's changes has been pushed so
      far, the strategy holds the best bid and ask as of the last change it has popped, and the present
      ones once it has popped all. This holds of every run, replacements under an order's own id included:
      they lose orders, but not levels. */
  lemma {:induction false} StrategyPopsTop(ops: seq<BookOp>, ring: SpscSteps.Ring, s: SpscSteps.QState)
    requires RunSingle(EMPTY_BOOK, ops).Done? && SpscSteps.QReachable(ring, s)
    requires s.pushed <= Map(SingleStratBooks.Encode, PushedBy(ops))
    ensures
      var view := ObserveAll(INITIAL_VIEW, Map(Decode, s.popped));
      && TopAsOfPush(ops, |s.popped|, view)
      && (|s.popped| == |PushedBy(ops)| ==> view == TopAfter(ops))
  {
    SpscSteps.Fifo(ring, s);
    var changes := PushedBy(ops);
    forall i | 0 <= i < |changes|
      ensures Decode(SingleStratBooks.Encode(changes[i])) == changes[i]
    {
      DecodeEncode(changes[i]);
    }
    MapBack(SingleStratBooks.Encode, Decode, changes, 0, |s.popped|);
    assert s.popped == Map(SingleStratBooks.Encode, changes)[0..|s.popped|];
    PrefixesAreTruthful(ops, |s.popped|);
    if |s.popped| == |changes| {
      assert changes[..|s.popped|] == changes;
      CurrentIsTop(ops);
    }
  }
}
