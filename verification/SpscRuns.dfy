/** An uninterrupted call on the single-producer single-consumer ring, as a run of its step system. */
module SpscRuns {
  import opened Bits
  import opened SlotCounting
  import opened Words
  import opened SpscSteps

  lemma {:induction false} QRunCons(ring: Ring, s: QState, a: QAction, rest: seq<QAction>, s': QState)
    requires Shape(ring, s) && QEnabled(ring, s, a) && IsQRun(ring, QStep(ring, s, a), rest, s')
    ensures IsQRun(ring, s, [a] + rest, s')
  {
    assert ([a] + rest)[1..] == rest;
  }

  /** Constructing the words of a value from `from` on, up to and including the publication. */
  function BuildWords(from: nat, words: nat): seq<QAction>
    requires from <= words
    decreases words - from
  {
    if from == words then [FinishBuild, PublishWriter] else [BuildWord(from)] + BuildWords(from + 1, words)
  }

  function PushActions(ring: Ring, val: Value): seq<QAction> {
    [PushLoadWriter(val)] + ([PushLoadReader] + BuildWords(0, ring.words))
  }

  /** The state after an uninterrupted `try_push` that stores the value. */
  function AfterPush(ring: Ring, s: QState, val: Value): QState
    requires ring.size > 0 && ring.Slot(s.writer) < |s.slots|
  {
    var i := ring.Slot(s.writer);
    s.(slots := s.slots[i := val], live := s.live + {i}, writer := Inc(s.writer),
       push := PushIdle, pushed := s.pushed + [val])
  }

  lemma {:induction false} PublishRun(ring: Ring, s: QState, val: Value)
    requires Shape(ring, s) && ring.Slot(s.writer) < |s.slots|
    requires s.push == Building(val, s.writer, Keys(ring.words)) && s.slots[ring.Slot(s.writer)] == val
    ensures IsQRun(ring, s, [FinishBuild, PublishWriter], AfterPush(ring, s, val))
  {
    var s1 := QStep(ring, s, FinishBuild);
    var s2 := QStep(ring, s1, PublishWriter);
    assert s.slots[ring.Slot(s.writer) := val] == s.slots;
    assert s2 == AfterPush(ring, s, val);
    assert IsQRun(ring, s2, [], s2);
    QRunCons(ring, s1, PublishWriter, [], s2);
    QRunCons(ring, s, FinishBuild, [PublishWriter], s2);
    assert [FinishBuild] + [PublishWriter] == [FinishBuild, PublishWriter];
  }

  lemma {:induction false} BuildWordsRun(ring: Ring, s: QState, val: Value, from: nat)
    requires Shape(ring, s) && ring.Slot(s.writer) < |s.slots| && |val| == ring.words && from <= ring.words
    requires s.push == Building(val, s.writer, Keys(from))
    requires s.slots[ring.Slot(s.writer)][..from] == val[..from]
    ensures IsQRun(ring, s, BuildWords(from, ring.words), AfterPush(ring, s, val))
    decreases ring.words - from
  {
    var i := ring.Slot(s.writer);
    if from == ring.words {
      assert s.slots[i] == s.slots[i][..from] && val == val[..from];
      PublishRun(ring, s, val);
    } else {
      assert from !in Keys(from) && Keys(from) + {from} == Keys(from + 1);
      var s1 := QStep(ring, s, BuildWord(from));
      assert s1.slots[i] == s.slots[i][from := val[from]];
      assert s1.slots[i][..from + 1] == val[..from + 1] by {
        assert s1.slots[i][..from + 1] == s.slots[i][..from] + [val[from]];
        assert val[..from + 1] == val[..from] + [val[from]];
      }
      assert s1.slots[i := val] == s.slots[i := val];
      BuildWordsRun(ring, s1, val, from + 1);
      QRunCons(ring, s, BuildWord(from), BuildWords(from + 1, ring.words), AfterPush(ring, s, val));
    }
  }

  /** `try_push` from start to finish while there is room. */
  lemma {:induction false} PushRun(ring: Ring, s: QState, val: Value)
    requires QInv(ring, s) && s.push == PushIdle && |val| == ring.words
    requires |s.pushed| + 1 < |s.popped| + ring.size
    ensures ring.Slot(s.writer) < |s.slots| && IsQRun(ring, s, PushActions(ring, val), AfterPush(ring, s, val))
  {
    WrappedSlot(ring, |s.pushed|);
    UsedIsTrueDifference(|s.pushed|, |s.popped|);
    var s1 := QStep(ring, s, PushLoadWriter(val));
    var s2 := QStep(ring, s1, PushLoadReader);
    assert s2.push == Building(val, s.writer, {});
    assert Keys(0) == {};
    BuildWordsRun(ring, s2, val, 0);
    assert AfterPush(ring, s2, val) == AfterPush(ring, s, val);
    QRunCons(ring, s1, PushLoadReader, BuildWords(0, ring.words), AfterPush(ring, s, val));
    QRunCons(ring, s, PushLoadWriter(val), [PushLoadReader] + BuildWords(0, ring.words), AfterPush(ring, s, val));
  }

  /** Copying the words of a slot out from `from` on, up to and including the release of the slot. */
  function TakeWords(from: nat, words: nat): seq<QAction>
    requires from <= words
    decreases words - from
  {
    if from == words then [FinishTake, PublishReader] else [TakeWord(from)] + TakeWords(from + 1, words)
  }

  function PopActions(ring: Ring): seq<QAction> {
    [PopLoadReader] + ([PopLoadWriter] + TakeWords(0, ring.words))
  }

  /** The state after an uninterrupted `try_pop` that takes a value. */
  function AfterPop(ring: Ring, s: QState): QState
    requires ring.size > 0 && ring.Slot(s.reader) < |s.slots|
  {
    var i := ring.Slot(s.reader);
    s.(live := s.live - {i}, reader := Inc(s.reader), pop := PopIdle, popped := s.popped + [s.slots[i]])
  }

  lemma {:induction false} ReleaseRun(ring: Ring, s: QState, val: Value)
    requires Shape(ring, s) && ring.Slot(s.reader) < |s.slots| && |val| == ring.words
    requires s.slots[ring.Slot(s.reader)] == val && s.pop == Taking(s.reader, Prefix(val, ring.words))
    ensures IsQRun(ring, s, [FinishTake, PublishReader], AfterPop(ring, s))
  {
    assert Assemble(ring.words, Prefix(val, ring.words)) == val;
    var s1 := QStep(ring, s, FinishTake);
    var s2 := QStep(ring, s1, PublishReader);
    assert s2 == AfterPop(ring, s);
    assert IsQRun(ring, s2, [], s2);
    QRunCons(ring, s1, PublishReader, [], s2);
    QRunCons(ring, s, FinishTake, [PublishReader], s2);
    assert [FinishTake] + [PublishReader] == [FinishTake, PublishReader];
  }

  lemma {:induction false} TakeWordsRun(ring: Ring, s: QState, val: Value, from: nat)
    requires Shape(ring, s) && ring.Slot(s.reader) < |s.slots| && |val| == ring.words && from <= ring.words
    requires s.slots[ring.Slot(s.reader)] == val && s.pop == Taking(s.reader, Prefix(val, from))
    ensures IsQRun(ring, s, TakeWords(from, ring.words), AfterPop(ring, s))
    decreases ring.words - from
  {
    if from == ring.words {
      ReleaseRun(ring, s, val);
    } else {
      assert from !in Keys(from);
      var s1 := QStep(ring, s, TakeWord(from));
      assert Prefix(val, from)[from := val[from]] == Prefix(val, from + 1);
      TakeWordsRun(ring, s1, val, from + 1);
      QRunCons(ring, s, TakeWord(from), TakeWords(from + 1, ring.words), AfterPop(ring, s));
    }
  }

  /** `try_pop` from start to finish while something is waiting: it takes the oldest value. */
  lemma {:induction false} PopRun(ring: Ring, s: QState)
    requires QInv(ring, s) && s.pop == PopIdle && |s.popped| < |s.pushed|
    ensures ring.Slot(s.reader) < |s.slots| && s.slots[ring.Slot(s.reader)] == s.pushed[|s.popped|]
    ensures IsQRun(ring, s, PopActions(ring), AfterPop(ring, s))
  {
    WrappedSlot(ring, |s.popped|);
    UsedIsTrueDifference(|s.pushed|, |s.popped|);
    var val := s.slots[ring.Slot(s.reader)];
    var s1 := QStep(ring, s, PopLoadReader);
    var s2 := QStep(ring, s1, PopLoadWriter);
    assert Prefix(val, 0) == map[];
    TakeWordsRun(ring, s2, val, 0);
    assert AfterPop(ring, s2) == AfterPop(ring, s);
    QRunCons(ring, s1, PopLoadWriter, TakeWords(0, ring.words), AfterPop(ring, s));
    QRunCons(ring, s, PopLoadReader, [PopLoadWriter] + TakeWords(0, ring.words), AfterPop(ring, s));
  }
}
