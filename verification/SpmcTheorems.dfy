/** What the step system of the broadcast ring guarantees over whole runs. */
module SpmcTheorems {
  import opened Bits
  import opened Words
  import opened SlotCounting
  import opened SpmcSteps

  /** In every reachable state each consumer has returned a gap-free, duplicate-free segment of the
      push history, beginning at the writer index it was created with. */
  lemma {:induction false} PopsAreHistorySegment(cfg: Config, s: State, c: nat)
    requires Reachable(cfg, s) && c < |s.consumers|
    ensures
      var con := s.consumers[c];
      && con.start <= con.reader <= |s.history|
      && con.popped == s.history[con.start..con.reader]
  {
    ReachableInv(cfg, s);
    assert ConsumerInv(cfg, s, s.consumers[c]);
  }

  /** Any two consumers returned the same value for every push number both have returned. */
  lemma {:induction false} ConsumersAgree(cfg: Config, s: State, c: nat, d: nat, j: nat)
    requires Reachable(cfg, s) && c < |s.consumers| && d < |s.consumers|
    requires s.consumers[c].start <= j < s.consumers[c].start + |s.consumers[c].popped|
    requires s.consumers[d].start <= j < s.consumers[d].start + |s.consumers[d].popped|
    ensures s.consumers[c].popped[j - s.consumers[c].start] == s.consumers[d].popped[j - s.consumers[d].start]
  {
    PopsAreHistorySegment(cfg, s, c);
    PopsAreHistorySegment(cfg, s, d);
  }

  /** Slot `i` has been written `PushesInto(i, ...)` times in full: its version is twice that
      number, plus one exactly while the producer is writing into it. */
  lemma {:induction false} SlotVersion(cfg: Config, s: State, i: nat)
    requires Reachable(cfg, s) && i < |s.slots|
    ensures cfg.size > 0 && |s.slots| == cfg.size
    ensures s.slots[i].version == 2 * PushesInto(i, Done(s), cfg.size)
                                  + (if s.producer.Writing? && i == s.writer % cfg.size then 1 else 0)
  {
    ReachableInv(cfg, s);
  }

  /** The first version load of `pop` decides: return false exactly when push `reader` is
      incomplete, abort exactly when the reader has been lapped, and copy otherwise. */
  lemma {:induction false} FirstLoadDecides(cfg: Config, s: State, c: nat)
    requires Reachable(cfg, s)
    requires WellFormed(cfg, s) && Enabled(cfg, s, LoadBefore(c))
    ensures
      var con := s.consumers[c];
      var pc := Step(cfg, s, LoadBefore(c)).consumers[c].pc;
      && (pc.Ready? <==> Done(s) <= con.reader)
      && (pc.Overrun? <==> con.reader + cfg.size < Opened(s))
      && (pc.Copying? <==> con.reader < Done(s) && Opened(s) <= con.reader + cfg.size)
  {
    ReachableInv(cfg, s);
    VersionDecides(cfg, s, s.consumers[c].reader);
  }

  /** A pop that completes in a reachable state yields push number `reader`, or aborts exactly when
      the producer has meanwhile lapped the reader. */
  lemma {:induction false} CompletedPopIsExact(cfg: Config, s: State, c: nat)
    requires Reachable(cfg, s)
    requires WellFormed(cfg, s) && Enabled(cfg, s, LoadAfter(c))
    ensures
      var con, con' := s.consumers[c], Step(cfg, s, LoadAfter(c)).consumers[c];
      if con.reader + cfg.size < Opened(s) then con' == con.(pc := Overrun)
      else con.reader < |s.history| && con' == Consumer(con.start, con.reader + 1, con.popped + [s.history[con.reader]], Ready)
  {
    ReachableInv(cfg, s);
    PopReturnsPushNumberReader(cfg, s, c);
  }

  /** A reader is at most one past the writer index, and only while a complete push has not yet
      stored the new index. */
  lemma {:induction false} ReaderBound(cfg: Config, s: State, c: nat)
    requires Reachable(cfg, s) && c < |s.consumers|
    ensures s.consumers[c].reader <= s.writer + 1
    ensures s.consumers[c].reader == s.writer + 1 ==> s.producer.Sealed?
  {
    ReachableInv(cfg, s);
    assert ConsumerInv(cfg, s, s.consumers[c]);
  }

  lemma {:induction false} RunAppend(cfg: Config, s: State, a: seq<Action>, mid: State, b: seq<Action>, s': State)
    requires IsRun(cfg, s, a, mid) && IsRun(cfg, mid, b, s')
    ensures IsRun(cfg, s, a + b, s')
    decreases |a|
  {
    if a == [] {
      assert a + b == b;
    } else {
      RunAppend(cfg, Step(cfg, s, a[0]), a[1..], mid, b, s');
      assert (a + b)[0] == a[0] && (a + b)[1..] == a[1..] + b;
    }
  }

  lemma {:induction false} RunOne(cfg: Config, s: State, a: Action)
    requires WellFormed(cfg, s) && Enabled(cfg, s, a) && WellFormed(cfg, Step(cfg, s, a))
    ensures IsRun(cfg, s, [a], Step(cfg, s, a))
  {
    assert [a][1..] == [];
    assert IsRun(cfg, Step(cfg, s, a), [], Step(cfg, s, a));
  }

  lemma {:induction false} RunCons(cfg: Config, s: State, a: Action, acts: seq<Action>, s': State)
    requires WellFormed(cfg, s) && Enabled(cfg, s, a) && IsRun(cfg, Step(cfg, s, a), acts, s')
    ensures IsRun(cfg, s, [a] + acts, s')
  {
    assert ([a] + acts)[1..] == acts;
  }

  lemma {:induction false} ReachableExtends(cfg: Config, s: State, acts: seq<Action>, s': State)
    requires Reachable(cfg, s) && IsRun(cfg, s, acts, s')
    ensures Reachable(cfg, s')
  {
    var s0, before :| Init(cfg, s0) && IsRun(cfg, s0, before, s);
    RunAppend(cfg, s0, before, s, acts, s');
  }

  /** Nothing a run does unsays an earlier push or an earlier pop. */
  lemma {:induction false} RunsOnlyExtend(cfg: Config, s: State, acts: seq<Action>, s': State, c: nat)
    requires IsRun(cfg, s, acts, s')
    ensures s.history <= s'.history && |s.consumers| <= |s'.consumers|
    ensures c < |s.consumers| ==>
              && s'.consumers[c].start == s.consumers[c].start
              && s.consumers[c].popped <= s'.consumers[c].popped
    decreases |acts|
  {
    if acts == [] {
    } else {
      RunsOnlyExtend(cfg, Step(cfg, s, acts[0]), acts[1..], s', c);
    }
  }

  /** A consumer made at some moment returns, from then on and whatever else happens, exactly the pushes from
      the writer index of that moment on. */
  lemma {:induction false} ConsumerReadsFromWriter(cfg: Config, s: State, acts: seq<Action>, s': State)
    requires Reachable(cfg, s) && IsRun(cfg, s, [MakeConsumer] + acts, s')
    ensures
      var c := |s.consumers|;
      && c < |s'.consumers| && s.writer <= s'.consumers[c].reader <= |s'.history|
      && s'.consumers[c].popped == s'.history[s.writer..s'.consumers[c].reader]
  {
    assert ([MakeConsumer] + acts)[1..] == acts;
    ReachableExtends(cfg, s, [MakeConsumer] + acts, s');
    RunsOnlyExtend(cfg, Step(cfg, s, MakeConsumer), acts, s', |s.consumers|);
    PopsAreHistorySegment(cfg, s', |s.consumers|);
  }

  /** The values of the pushes that a run begins. */
  function PushedIn(acts: seq<Action>): seq<Value> {
    if acts == [] then []
    else (if acts[0].LoadWriter? then [acts[0].val] else []) + PushedIn(acts[1..])
  }

  lemma HistoryStep(cfg: Config, s: State, a: Action)
    requires WellFormed(cfg, s) && Enabled(cfg, s, a)
    ensures Step(cfg, s, a).history == s.history + (if a.LoadWriter? then [a.val] else [])
  {
  }

  /** The history is what has been pushed, in order. */
  lemma {:induction false} HistoryIsPushes(cfg: Config, s: State, acts: seq<Action>, s': State)
    requires IsRun(cfg, s, acts, s')
    ensures s'.history == s.history + PushedIn(acts)
    decreases |acts|
  {
    if acts == [] {
    } else {
      HistoryStep(cfg, s, acts[0]);
      var first := if acts[0].LoadWriter? then [acts[0].val] else [];
      HistoryIsPushes(cfg, Step(cfg, s, acts[0]), acts[1..], s');
      assert s.history + first + PushedIn(acts[1..]) == s.history + (first + PushedIn(acts[1..]));
    }
  }

  // ----- `push` and `pop` run without interruption -----

  /** Storing the words from `from` on, up to and including the writer index. */
  function StoreWords(from: nat, words: nat): seq<Action>
    requires from <= words
    decreases words - from
  {
    if from == words then [StoreEven] + [StoreWriter] else [StoreWord(from)] + StoreWords(from + 1, words)
  }

  function PushActions(cfg: Config, val: Value): seq<Action> {
    [LoadWriter(val)] + ([LoadVersion] + ([StoreOdd] + StoreWords(0, cfg.words)))
  }

  function AfterPush(cfg: Config, s: State, val: Value): State
    requires WellFormed(cfg, s)
  {
    var i := s.writer % cfg.size;
    s.(slots := s.slots[i := Slot(s.slots[i].version + 2, val)],
    writer := s.writer + 1, history := s.history + [val])
  }

  predicate StoringFrom(cfg: Config, s: State, val: Value, ver: nat, from: nat) {
    && WellFormed(cfg, s) && |val| == cfg.words && from <= cfg.words
    && s.producer == Writing(val, s.writer, ver, Keys(from))
    && s.slots[s.writer % cfg.size].data[..from] == val[..from]
  }

  function Stored(cfg: Config, s: State, val: Value, ver: nat): State
    requires WellFormed(cfg, s)
  {
    s.(slots := s.slots[s.writer % cfg.size := Slot(ver + 2, val)], writer := s.writer + 1, producer := Idle)
  }

  lemma {:induction false} SealRun(cfg: Config, s: State, val: Value, ver: nat)
    requires StoringFrom(cfg, s, val, ver, cfg.words)
    ensures IsRun(cfg, s, [StoreEven] + [StoreWriter], Stored(cfg, s, val, ver))
  {
    RingArithmetic(s.writer, cfg.size);
    assert s.slots[s.writer % cfg.size].data == val;
    var s1 := Step(cfg, s, StoreEven);
    var s2 := Step(cfg, s1, StoreWriter);
    RunOne(cfg, s1, StoreWriter);
    RunCons(cfg, s, StoreEven, [StoreWriter], s2);
  }

  lemma {:induction false} StoreWordStep(cfg: Config, s: State, val: Value, ver: nat, from: nat)
    requires StoringFrom(cfg, s, val, ver, from) && from < cfg.words
    ensures Enabled(cfg, s, StoreWord(from))
    ensures
      var s1 := Step(cfg, s, StoreWord(from));
      StoringFrom(cfg, s1, val, ver, from + 1) && Stored(cfg, s1, val, ver) == Stored(cfg, s, val, ver)
  {
    RingArithmetic(s.writer, cfg.size);
    assert from !in Keys(from) && Keys(from) + {from} == Keys(from + 1);
    var data := s.slots[s.writer % cfg.size].data;
    assert data[from := val[from]][..from + 1] == data[..from] + [val[from]];
    assert val[..from + 1] == val[..from] + [val[from]];
  }

  lemma {:induction false} StoreWordsRun(cfg: Config, s: State, val: Value, ver: nat, from: nat)
    requires StoringFrom(cfg, s, val, ver, from)
    ensures IsRun(cfg, s, StoreWords(from, cfg.words), Stored(cfg, s, val, ver))
    decreases cfg.words - from
  {
    if from == cfg.words {
      SealRun(cfg, s, val, ver);
    } else {
      StoreWordStep(cfg, s, val, ver, from);
      StoreWordsRun(cfg, Step(cfg, s, StoreWord(from)), val, ver, from + 1);
      RunCons(cfg, s, StoreWord(from), StoreWords(from + 1, cfg.words), Stored(cfg, s, val, ver));
    }
  }

  /** `push` from start to finish: it fills slot `w & mask` with the value, raises that slot's
      version by two and the writer index by one, and changes nothing else. */
  lemma {:induction false} PushRun(cfg: Config, s: State, val: Value)
    requires WellFormed(cfg, s) && s.producer.Idle? && |val| == cfg.words
    ensures IsRun(cfg, s, PushActions(cfg, val), AfterPush(cfg, s, val))
  {
    RingArithmetic(s.writer, cfg.size);
    var s1 := Step(cfg, s, LoadWriter(val));
    var s2 := Step(cfg, s1, LoadVersion);
    var s3 := Step(cfg, s2, StoreOdd);
    var ver := s2.producer.ver;
    var s' := AfterPush(cfg, s, val);
    assert Keys(0) == {};
    StoreWordsRun(cfg, s3, val, ver, 0);
    assert Stored(cfg, s3, val, ver) == s';
    RunCons(cfg, s2, StoreOdd, StoreWords(0, cfg.words), s');
    RunCons(cfg, s1, LoadVersion, [StoreOdd] + StoreWords(0, cfg.words), s');
    RunCons(cfg, s, LoadWriter(val), [LoadVersion] + ([StoreOdd] + StoreWords(0, cfg.words)), s');
  }

  /** Copying the words from `from` on, up to and including the second version check. */
  function CopyWords(c: nat, from: nat, words: nat): seq<Action>
    requires from <= words
    decreases words - from
  {
    if from == words then [LoadAfter(c)] else [CopyWord(c, from)] + CopyWords(c, from + 1, words)
  }

  function PopActions(cfg: Config, c: nat): seq<Action> {
    [LoadBefore(c)] + CopyWords(c, 0, cfg.words)
  }

  function AfterPop(cfg: Config, s: State, c: nat): State
    requires WellFormed(cfg, s) && c < |s.consumers|
  {
    var con := s.consumers[c];
    s.(consumers := s.consumers[c :=
        Consumer(con.start, con.reader + 1, con.popped + [s.slots[con.reader % cfg.size].data], Ready)])
  }

  lemma {:induction false} CheckRun(cfg: Config, s: State, c: nat, data: Value)
    requires WellFormed(cfg, s) && c < |s.consumers| && |data| == cfg.words
    requires s.slots[s.consumers[c].reader % cfg.size] == Slot(cfg.Expected(s.consumers[c].reader), data)
    requires s.consumers[c].pc == Copying(Prefix(data, cfg.words))
    ensures IsRun(cfg, s, [LoadAfter(c)], AfterPop(cfg, s, c))
  {
    RingArithmetic(s.consumers[c].reader, cfg.size);
    assert Assemble(cfg.words, Prefix(data, cfg.words)) == data;
    assert Step(cfg, s, LoadAfter(c)) == AfterPop(cfg, s, c);
    RunOne(cfg, s, LoadAfter(c));
  }

  predicate CopyingFrom(cfg: Config, s: State, c: nat, data: Value, from: nat) {
    && WellFormed(cfg, s) && c < |s.consumers| && |data| == cfg.words && from <= cfg.words
    && s.slots[s.consumers[c].reader % cfg.size] == Slot(cfg.Expected(s.consumers[c].reader), data)
    && s.consumers[c].pc == Copying(Prefix(data, from))
  }

  lemma {:induction false} CopyWordStep(cfg: Config, s: State, c: nat, data: Value, from: nat)
    requires CopyingFrom(cfg, s, c, data, from) && from < cfg.words
    ensures Enabled(cfg, s, CopyWord(c, from))
    ensures
      var s1 := Step(cfg, s, CopyWord(c, from));
      CopyingFrom(cfg, s1, c, data, from + 1) && AfterPop(cfg, s1, c) == AfterPop(cfg, s, c)
  {
    RingArithmetic(s.consumers[c].reader, cfg.size);
    assert from !in Keys(from);
    assert Prefix(data, from)[from := data[from]] == Prefix(data, from + 1);
  }

  lemma {:induction false} CopyWordsRun(cfg: Config, s: State, c: nat, data: Value, from: nat)
    requires CopyingFrom(cfg, s, c, data, from)
    ensures IsRun(cfg, s, CopyWords(c, from, cfg.words), AfterPop(cfg, s, c))
    decreases cfg.words - from
  {
    if from == cfg.words {
      CheckRun(cfg, s, c, data);
    } else {
      CopyWordStep(cfg, s, c, data, from);
      CopyWordsRun(cfg, Step(cfg, s, CopyWord(c, from)), c, data, from + 1);
      RunCons(cfg, s, CopyWord(c, from), CopyWords(c, from + 1, cfg.words), AfterPop(cfg, s, c));
    }
  }

  /** `pop` from start to finish when the slot holds the expected version. */
  lemma {:induction false} PopRun(cfg: Config, s: State, c: nat)
    requires WellFormed(cfg, s) && c < |s.consumers| && s.consumers[c].pc.Ready?
    requires s.slots[s.consumers[c].reader % cfg.size].version == cfg.Expected(s.consumers[c].reader)
    ensures IsRun(cfg, s, PopActions(cfg, c), AfterPop(cfg, s, c))
  {
    var con := s.consumers[c];
    RingArithmetic(con.reader, cfg.size);
    var data := s.slots[con.reader % cfg.size].data;
    var s1 := Step(cfg, s, LoadBefore(c));
    assert Prefix(data, 0) == map[];
    CopyWordsRun(cfg, s1, c, data, 0);
    assert AfterPop(cfg, s1, c) == AfterPop(cfg, s, c);
    RunCons(cfg, s, LoadBefore(c), CopyWords(c, 0, cfg.words), AfterPop(cfg, s, c));
  }

  /** No reader is ever starved: while it has not been lapped, an uninterrupted `pop` of a completed
      push succeeds and returns that push. */
  lemma {:induction false} PopDelivers(cfg: Config, s: State, c: nat)
    requires Reachable(cfg, s) && c < |s.consumers| && s.consumers[c].pc.Ready?
    requires s.consumers[c].reader < Done(s) && Opened(s) <= s.consumers[c].reader + cfg.size
    ensures
      var con := s.consumers[c];
      con.reader < |s.history| &&
      IsRun(cfg, s, PopActions(cfg, c), s.(consumers := s.consumers[c :=
          Consumer(con.start, con.reader + 1, con.popped + [s.history[con.reader]], Ready)]))
  {
    ReachableInv(cfg, s);
    VersionDecides(cfg, s, s.consumers[c].reader);
    PopRun(cfg, s, c);
  }

  /** The reader bound is tight: from any initial state with a one-word value there is a run after
      which a consumer has popped element `writer` before the writer index moved. */
  lemma {:induction false} ReaderCanPassWriter(cfg: Config, s: State, x: Word)
    requires Init(cfg, s) && cfg.words == 1
    ensures exists acts, s' :: IsRun(cfg, s, acts, s') && |s'.consumers| == 1
                               && s'.consumers[0].reader == s'.writer + 1
  {
    RingArithmetic(0, cfg.size);
    DivModUnique(0, cfg.size, 0, 0);
    var s1 := Step(cfg, s, MakeConsumer);
    var acts, s' := PassEarly(cfg, s1, [x]);
    RunCons(cfg, s, MakeConsumer, acts, s');
  }

  lemma {:induction false} PassEarly(cfg: Config, s: State, val: Value) returns (acts: seq<Action>, s': State)
    requires WellFormed(cfg, s) && cfg.words == 1 && |val| == 1
    requires s.writer == 0 && s.producer.Idle? && s.slots[0].version == 0
    requires s.consumers == [Consumer(0, 0, [], Ready)]
    ensures IsRun(cfg, s, acts, s') && |s'.consumers| == 1 && s'.writer == 0 && s'.consumers[0].reader == 1
  {
    RingArithmetic(0, cfg.size);
    DivModUnique(0, cfg.size, 0, 0);
    var s2 := Step(cfg, s, LoadWriter(val));
    var s3 := Step(cfg, s2, LoadVersion);
    var s4 := Step(cfg, s3, StoreOdd);
    var rest;
    rest, s' := FinishEarly(cfg, s4, val);
    RunCons(cfg, s3, StoreOdd, rest, s');
    RunCons(cfg, s2, LoadVersion, [StoreOdd] + rest, s');
    RunCons(cfg, s, LoadWriter(val), [LoadVersion] + ([StoreOdd] + rest), s');
    acts := [LoadWriter(val)] + ([LoadVersion] + ([StoreOdd] + rest));
  }

  lemma {:induction false} FinishEarly(cfg: Config, s: State, val: Value) returns (acts: seq<Action>, s': State)
    requires WellFormed(cfg, s) && cfg.words == 1 && |val| == 1
    requires s.writer == 0 && s.producer == Writing(val, 0, 0, {})
    requires s.consumers == [Consumer(0, 0, [], Ready)]
    ensures IsRun(cfg, s, acts, s') && |s'.consumers| == 1 && s'.writer == 0 && s'.consumers[0].reader == 1
  {
    RingArithmetic(0, cfg.size);
    DivModUnique(0, cfg.size, 0, 0);
    assert Keys(1) == {0};
    var s5 := Step(cfg, s, StoreWord(0));
    var s6 := Step(cfg, s5, StoreEven);
    s' := AfterPop(cfg, s6, 0);
    PopRun(cfg, s6, 0);
    RunCons(cfg, s5, StoreEven, PopActions(cfg, 0), s');
    RunCons(cfg, s, StoreWord(0), [StoreEven] + PopActions(cfg, 0), s');
    acts := [StoreWord(0)] + ([StoreEven] + PopActions(cfg, 0));
  }
}
