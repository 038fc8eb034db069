/** How often a ring slot has been written, and what that says about a slot's generation. */
module SlotCounting {
  import opened Bits

  /** The number of pushes among the first `done` that land in slot `i` of a ring of `size` slots. */
  function PushesInto(i: nat, done: nat, size: nat): nat
    requires size > 0
    decreases done
  {
    if done == 0 then 0
    else PushesInto(i, done - 1, size) + (if (done - 1) % size == i then 1 else 0)
  }

  lemma {:induction false} SuccDivMod(d: nat, n: nat)
    requires n > 0
    ensures d % n + 1 < n ==> (d + 1) / n == d / n && (d + 1) % n == d % n + 1
    ensures d % n + 1 == n ==> (d + 1) / n == d / n + 1 && (d + 1) % n == 0
  {
    DivModIdentity(d, n);
    var q, r := d / n, d % n;
    if r + 1 < n {
      DivModUnique(d + 1, n, q, r + 1);
    } else {
      assert n * (q + 1) == n * q + n;
      DivModUnique(d + 1, n, q + 1, 0);
    }
  }

  lemma {:induction false} PushesIntoClosed(i: nat, done: nat, size: nat)
    requires i < size
    ensures PushesInto(i, done, size) == done / size + (if i < done % size then 1 else 0)
    decreases done
  {
    if done == 0 {
      DivModUnique(0, size, 0, 0);
    } else {
      PushesIntoClosed(i, done - 1, size);
      SuccDivMod(done - 1, size);
    }
  }

  lemma {:induction false} PushesIntoMonotone(i: nat, d: nat, d': nat, size: nat)
    requires size > 0 && d <= d'
    ensures PushesInto(i, d, size) <= PushesInto(i, d', size)
    decreases d'
  {
    if d == d' {
    } else {
      PushesIntoMonotone(i, d, d' - 1, size);
    }
  }

  lemma {:induction false} NextLap(j: nat, size: nat)
    requires size > 0
    ensures (j + size) % size == j % size && (j + size) / size == j / size + 1
  {
    DivModIdentity(j, size);
    assert size * (j / size + 1) == size * (j / size) + size;
    DivModUnique(j + size, size, j / size + 1, j % size);
  }

  /** Two pushes that share a slot are at least a whole lap apart. */
  lemma {:induction false} SameSlotGap(j: nat, w: nat, size: nat)
    requires size > 0 && j < w && j % size == w % size
    ensures j + size <= w
  {
    DivModIdentity(j, size);
    DivModIdentity(w, size);
    var d := w / size - j / size;
    assert size * d == size * (w / size) - size * (j / size) == w - j;
    NonzeroMultipleIsFar(size, d);
  }

  /** The write count of slot `r % size` tells exactly whether push `r` is not done, done and
      still in the slot, or overwritten by push `r + size`. */
  lemma {:induction false} CountTellsGeneration(r: nat, done: nat, size: nat)
    requires size > 0
    ensures done <= r <==> PushesInto(r % size, done, size) < r / size + 1
    ensures r < done <= r + size <==> PushesInto(r % size, done, size) == r / size + 1
    ensures r + size < done <==> PushesInto(r % size, done, size) > r / size + 1
  {
    var i := r % size;
    PushesIntoClosed(i, r, size);
    NextLap(r, size);
    PushesIntoClosed(i, r + size, size);
    if done <= r {
      PushesIntoMonotone(i, done, r, size);
    } else if done <= r + size {
      PushesIntoMonotone(i, r + 1, done, size);
      PushesIntoMonotone(i, done, r + size, size);
    } else {
      PushesIntoMonotone(i, r + size + 1, done, size);
    }
  }
}

/** The seqlock broadcast ring as a step system: every atomic load and store, and every word of a
    data copy, is one step, and steps of the producer and of any number of consumers interleave
    freely (sequential consistency). Words of one copy may be copied in any order. */
module SpmcSteps {
  import opened Bits
  import opened Words
  import opened SlotCounting

  /** Ring size (a power of two, by the static assertion on its bit count) and words per value. */
  datatype Config = Config(size: nat, words: nat) {
    predicate Valid() {
      PopCount(size) == 1
    }

    /** The mask and shift arithmetic of the code. */
    function Index(x: nat): nat
      requires size > 0
    {
      And(x, size - 1)
    }

    function Expected(reader: nat): nat
      requires size > 0
    {
      2 * (ShiftRight(reader, CountrZero(size)) + 1)
    }
  }

  datatype Slot = Slot(version: nat, data: Value)

  /** Where the producer is inside `push`. */
  datatype ProducerPc =
    | Idle
    | LoadedWriter(val: Value, w: nat)
    | LoadedVersion(val: Value, w: nat, ver: nat)
    | Writing(val: Value, w: nat, ver: nat, stored: set<nat>)
    | Sealed(val: Value, w: nat)

  /** Where a consumer is inside `pop`: between calls, copying words out of its slot, or stopped
      by the overrun check. */
  datatype ConsumerPc = Ready | Copying(temp: map<nat, Word>) | Overrun

  /** `start` and `popped` record what a consumer has returned so far; only `reader` is in the code. */
  datatype Consumer = Consumer(start: nat, reader: nat, popped: seq<Value>, pc: ConsumerPc)

  /** `history` records the values of all pushes begun, in order. */
  datatype State = State(
    slots: seq<Slot>, writer: nat, producer: ProducerPc,
    consumers: seq<Consumer>, history: seq<Value>)

  datatype Action =
    | LoadWriter(val: Value)
    | LoadVersion
    | StoreOdd
    | StoreWord(k: nat)
    | StoreEven
    | StoreWriter
    | MakeConsumer
    | LoadBefore(c: nat)
    | CopyWord(c: nat, k: nat)
    | LoadAfter(c: nat)

  predicate WellFormed(cfg: Config, s: State) {
    && cfg.Valid()
    && cfg.size > 0
    && |s.slots| == cfg.size
    && forall i | 0 <= i < cfg.size :: |s.slots[i].data| == cfg.words
  }

  predicate Init(cfg: Config, s: State) {
    && WellFormed(cfg, s)
    && (forall i | 0 <= i < cfg.size :: s.slots[i].version == 0)
    && s.writer == 0 && s.producer == Idle && s.consumers == [] && s.history == []
  }

  predicate Enabled(cfg: Config, s: State, a: Action)
    requires WellFormed(cfg, s)
  {
    match a
    case LoadWriter(val) => s.producer.Idle? && |val| == cfg.words
    case LoadVersion => s.producer.LoadedWriter? && cfg.Index(s.producer.w) < |s.slots|
    case StoreOdd => s.producer.LoadedVersion? && cfg.Index(s.producer.w) < |s.slots|
    case StoreWord(k) =>
      && s.producer.Writing? && cfg.Index(s.producer.w) < |s.slots|
      && k < cfg.words && k < |s.producer.val| && k !in s.producer.stored
    case StoreEven =>
      && s.producer.Writing? && cfg.Index(s.producer.w) < |s.slots|
      && s.producer.stored == Keys(cfg.words)
    case StoreWriter => s.producer.Sealed?
    case MakeConsumer => true
    case LoadBefore(c) =>
      && c < |s.consumers| && s.consumers[c].pc.Ready?
      && cfg.Index(s.consumers[c].reader) < |s.slots|
    case CopyWord(c, k) =>
      && c < |s.consumers| && s.consumers[c].pc.Copying?
      && cfg.Index(s.consumers[c].reader) < |s.slots|
      && k < cfg.words && k !in s.consumers[c].pc.temp
    case LoadAfter(c) =>
      && c < |s.consumers| && s.consumers[c].pc.Copying?
      && cfg.Index(s.consumers[c].reader) < |s.slots|
      && s.consumers[c].pc.temp.Keys == Keys(cfg.words)
  }

  function Step(cfg: Config, s: State, a: Action): State
    requires WellFormed(cfg, s) && Enabled(cfg, s, a)
  {
    match a
    case LoadWriter(val) =>
      s.(producer := LoadedWriter(val, s.writer), history := s.history + [val])
    case LoadVersion =>
      var p := s.producer;
      s.(producer := LoadedVersion(p.val, p.w, s.slots[cfg.Index(p.w)].version))
    case StoreOdd =>
      var p := s.producer;
      var i := cfg.Index(p.w);
      s.(slots := s.slots[i := s.slots[i].(version := p.ver + 1)],
      producer := Writing(p.val, p.w, p.ver, {}))
    case StoreWord(k) =>
      var p := s.producer;
      var i := cfg.Index(p.w);
      var slot := s.slots[i];
      s.(slots := s.slots[i := slot.(data := slot.data[k := p.val[k]])],
      producer := p.(stored := p.stored + {k}))
    case StoreEven =>
      var p := s.producer;
      var i := cfg.Index(p.w);
      s.(slots := s.slots[i := s.slots[i].(version := p.ver + 2)], producer := Sealed(p.val, p.w))
    case StoreWriter =>
      s.(writer := s.producer.w + 1, producer := Idle)
    case MakeConsumer =>
      s.(consumers := s.consumers + [Consumer(s.writer, s.writer, [], Ready)])
    case LoadBefore(c) =>
      var con := s.consumers[c];
      var v1 := s.slots[cfg.Index(con.reader)].version;
      var e := cfg.Expected(con.reader);
      var pc := if v1 > e then Overrun else if v1 < e then Ready else Copying(map[]);
      s.(consumers := s.consumers[c := con.(pc := pc)])
    case CopyWord(c, k) =>
      var con := s.consumers[c];
      var word := s.slots[cfg.Index(con.reader)].data[k];
      s.(consumers := s.consumers[c := con.(pc := Copying(con.pc.temp[k := word]))])
    case LoadAfter(c) =>
      var con := s.consumers[c];
      var v2 := s.slots[cfg.Index(con.reader)].version;
      var con' :=
        if v2 != cfg.Expected(con.reader) then con.(pc := Overrun)
        else Consumer(con.start, con.reader + 1, con.popped + [Assemble(cfg.words, con.pc.temp)], Ready);
      s.(consumers := s.consumers[c := con'])
  }

  /** A run: the actions are taken one after the other, each enabled where it is taken. */
  predicate IsRun(cfg: Config, s: State, acts: seq<Action>, s': State)
    decreases |acts|
  {
    WellFormed(cfg, s) &&
    if acts == [] then s == s'
    else Enabled(cfg, s, acts[0]) && IsRun(cfg, Step(cfg, s, acts[0]), acts[1..], s')
  }

  ghost predicate Reachable(cfg: Config, s: State) {
    exists s0, acts :: Init(cfg, s0) && IsRun(cfg, s0, acts, s)
  }

  /** Pushes whose data is complete (version even again). */
  function Done(s: State): nat {
    if s.producer.Sealed? then s.writer + 1 else s.writer
  }

  /** Pushes that have begun to overwrite their slot (version made odd). */
  function Opened(s: State): nat {
    if s.producer.Writing? || s.producer.Sealed? then s.writer + 1 else s.writer
  }

  predicate VersionInv(cfg: Config, s: State)
    requires WellFormed(cfg, s)
  {
    forall i | 0 <= i < cfg.size ::
      s.slots[i].version ==
      2 * PushesInto(i, Done(s), cfg.size)
      + (if s.producer.Writing? && i == s.writer % cfg.size then 1 else 0)
  }

  predicate ProducerInv(cfg: Config, s: State)
    requires WellFormed(cfg, s)
  {
    if s.producer.Idle? then |s.history| == s.writer
    else
      && s.producer.w == s.writer
      && |s.history| == s.writer + 1
      && s.history[s.writer] == s.producer.val
      && |s.producer.val| == cfg.words
      && (s.producer.LoadedVersion? ==> s.producer.ver == s.slots[s.writer % cfg.size].version)
      && (s.producer.Writing? ==>
            && s.producer.ver + 1 == s.slots[s.writer % cfg.size].version
            && s.producer.stored <= Keys(cfg.words)
            && forall k | k in s.producer.stored ::
                 0 <= k < cfg.words && s.slots[s.writer % cfg.size].data[k] == s.producer.val[k])
  }

  /** A completed push stays readable until a later push opens its slot. */
  predicate DataInv(cfg: Config, s: State)
    requires WellFormed(cfg, s)
  {
    && Done(s) <= |s.history|
    && (forall j | 0 <= j < |s.history| :: |s.history[j]| == cfg.words)
    && forall j | 0 <= j < Done(s) && Opened(s) <= j + cfg.size ::
         s.slots[j % cfg.size].data == s.history[j]
  }

  /** What holds of one consumer: its pops are a gap-free segment of the push history, and words
      copied so far are right unless it has been lapped. */
  predicate ConsumerInv(cfg: Config, s: State, con: Consumer)
    requires WellFormed(cfg, s)
  {
    && con.start <= con.reader <= Done(s) <= |s.history|
    && con.popped == s.history[con.start..con.reader]
    && (con.pc.Copying? ==>
          && con.reader < Done(s)
          && con.pc.temp.Keys <= Keys(cfg.words)
          && (Opened(s) <= con.reader + cfg.size ==>
                forall k | k in con.pc.temp :: 0 <= k < |s.history[con.reader]| && con.pc.temp[k] == s.history[con.reader][k]))
  }

  predicate Inv(cfg: Config, s: State) {
    && WellFormed(cfg, s)
    && VersionInv(cfg, s)
    && ProducerInv(cfg, s)
    && DataInv(cfg, s)
    && forall c | 0 <= c < |s.consumers| :: ConsumerInv(cfg, s, s.consumers[c])
  }

  lemma InitInv(cfg: Config, s: State)
    requires Init(cfg, s)
    ensures Inv(cfg, s)
  {
  }

  /** Slot versions decide everything: the version at slot `reader & mask` is the expected one
      exactly while push `reader` is complete and push `reader + size` has not opened the slot;
      it is smaller exactly while push `reader` is incomplete, and larger exactly once the
      reader has been lapped. */
  lemma {:induction false} VersionDecides(cfg: Config, s: State, reader: nat)
    requires Inv(cfg, s)
    ensures cfg.Index(reader) == reader % cfg.size
    ensures 0 <= cfg.Index(reader) < |s.slots|
    ensures s.slots[cfg.Index(reader)].version < cfg.Expected(reader) <==> Done(s) <= reader
    ensures s.slots[cfg.Index(reader)].version == cfg.Expected(reader)
        <==> reader < Done(s) && Opened(s) <= reader + cfg.size
    ensures s.slots[cfg.Index(reader)].version > cfg.Expected(reader) <==> reader + cfg.size < Opened(s)
  {
    RingArithmetic(reader, cfg.size);
    var i := reader % cfg.size;
    DivModIdentity(reader, cfg.size);
    CountTellsGeneration(reader, Done(s), cfg.size);
    assert s.slots[i].version == 2 * PushesInto(i, Done(s), cfg.size)
      + (if s.producer.Writing? && i == s.writer % cfg.size then 1 else 0);
    if s.producer.Writing? {
      if i == s.writer % cfg.size {
        if reader < s.writer {
          SameSlotGap(reader, s.writer, cfg.size);
        } 
        if s.writer < reader {
          SameSlotGap(s.writer, reader, cfg.size);
        }
      } else {
        NextLap(reader, cfg.size);
        assert s.writer != reader + cfg.size;
      }
    }
  }

  lemma {:induction false} LoadWriterInv(cfg: Config, s: State, val: Value)
    requires Inv(cfg, s) && Enabled(cfg, s, LoadWriter(val))
    ensures Inv(cfg, Step(cfg, s, LoadWriter(val)))
  {
    var s' := Step(cfg, s, LoadWriter(val));
    forall c | 0 <= c < |s'.consumers|
      ensures ConsumerInv(cfg, s', s'.consumers[c])
    {
      var con := s.consumers[c];
      assert ConsumerInv(cfg, s, con);
      assert s'.history[con.start..con.reader] == s.history[con.start..con.reader];
    }
  }

  lemma {:induction false} LoadVersionInv(cfg: Config, s: State)
    requires Inv(cfg, s) && Enabled(cfg, s, LoadVersion)
    ensures Inv(cfg, Step(cfg, s, LoadVersion))
  {
    var s' := Step(cfg, s, LoadVersion);
    VersionDecides(cfg, s, s.writer);
    assert forall c | 0 <= c < |s'.consumers| :: ConsumerInv(cfg, s, s.consumers[c]);
  }

  lemma {:induction false} StoreOddInv(cfg: Config, s: State)
    requires Inv(cfg, s) && Enabled(cfg, s, StoreOdd)
    ensures Inv(cfg, Step(cfg, s, StoreOdd))
  {
    var s' := Step(cfg, s, StoreOdd);
    VersionDecides(cfg, s, s.writer);
    assert Done(s') == Done(s) && Opened(s') == Opened(s) + 1;
    assert forall j | 0 <= j < cfg.size :: s'.slots[j].data == s.slots[j].data;
    assert DataInv(cfg, s') by {
      forall j | 0 <= j < Done(s') && Opened(s') <= j + cfg.size
        ensures s'.slots[j % cfg.size].data == s'.history[j]
      {
        DivModIdentity(j, cfg.size);
      }
    }
    assert forall c | 0 <= c < |s'.consumers| :: ConsumerInv(cfg, s, s.consumers[c]);
  }

  lemma {:induction false} StoreWordInv(cfg: Config, s: State, k: nat)
    requires Inv(cfg, s) && Enabled(cfg, s, StoreWord(k))
    ensures Inv(cfg, Step(cfg, s, StoreWord(k)))
  {
    var s' := Step(cfg, s, StoreWord(k));
    VersionDecides(cfg, s, s.writer);
    assert DataInv(cfg, s') by {
      forall j | 0 <= j < Done(s') && Opened(s') <= j + cfg.size
        ensures s'.slots[j % cfg.size].data == s'.history[j]
      {
        DivModIdentity(j, cfg.size);
        if j % cfg.size == s.writer % cfg.size {
          SameSlotGap(j, s.writer, cfg.size);
        }
      }
    }
    assert forall c | 0 <= c < |s'.consumers| :: ConsumerInv(cfg, s, s.consumers[c]);
  }

  lemma {:induction false} StoreEvenInv(cfg: Config, s: State)
    requires Inv(cfg, s) && Enabled(cfg, s, StoreEven)
    ensures Inv(cfg, Step(cfg, s, StoreEven))
  {
    var s' := Step(cfg, s, StoreEven);
    var w := s.writer;
    VersionDecides(cfg, s, w);
    assert Done(s') == w + 1 == Done(s) + 1 && Opened(s') == Opened(s);
    assert s.slots[w % cfg.size].data == s.history[w];
    assert DataInv(cfg, s') by {
      forall j | 0 <= j < Done(s') && Opened(s') <= j + cfg.size
        ensures s'.slots[j % cfg.size].data == s'.history[j]
      {
        DivModIdentity(j, cfg.size);
      }
    }
    assert forall c | 0 <= c < |s'.consumers| :: ConsumerInv(cfg, s, s.consumers[c]);
  }

  lemma {:induction false} StoreWriterInv(cfg: Config, s: State)
    requires Inv(cfg, s) && Enabled(cfg, s, StoreWriter)
    ensures Inv(cfg, Step(cfg, s, StoreWriter))
  {
    var s' := Step(cfg, s, StoreWriter);
    assert Done(s') == Done(s) && Opened(s') == Opened(s);
    assert forall c | 0 <= c < |s'.consumers| :: ConsumerInv(cfg, s, s.consumers[c]);
  }

  /** The invariant reads the list of consumers only to ask `ConsumerInv` of each. */
  lemma ConsumersInv(cfg: Config, s: State, consumers: seq<Consumer>)
    requires Inv(cfg, s)
    requires forall c | 0 <= c < |consumers| :: ConsumerInv(cfg, s, consumers[c])
    ensures Inv(cfg, s.(consumers := consumers))
  {
    var s' := s.(consumers := consumers);
    assert Done(s') == Done(s) && Opened(s') == Opened(s);
    forall c | 0 <= c < |consumers|
      ensures ConsumerInv(cfg, s', consumers[c])
    {
      assert ConsumerInv(cfg, s, consumers[c]);
    }
  }

  lemma {:induction false} MakeConsumerInv(cfg: Config, s: State)
    requires Inv(cfg, s)
    ensures Inv(cfg, Step(cfg, s, MakeConsumer))
  {
    var s' := Step(cfg, s, MakeConsumer);
    forall c | 0 <= c < |s'.consumers|
      ensures ConsumerInv(cfg, s, s'.consumers[c])
    {
      if c < |s.consumers| {
        assert ConsumerInv(cfg, s, s.consumers[c]);
      }
    }
    ConsumersInv(cfg, s, s'.consumers);
  }

  lemma {:induction false} LoadBeforeInv(cfg: Config, s: State, c: nat)
    requires Inv(cfg, s) && Enabled(cfg, s, LoadBefore(c))
    ensures Inv(cfg, Step(cfg, s, LoadBefore(c)))
  {
    var s' := Step(cfg, s, LoadBefore(c));
    VersionDecides(cfg, s, s.consumers[c].reader);
    forall d | 0 <= d < |s'.consumers|
      ensures ConsumerInv(cfg, s, s'.consumers[d])
    {
      assert ConsumerInv(cfg, s, s.consumers[d]);
    }
    ConsumersInv(cfg, s, s'.consumers);
  }

  lemma {:induction false} CopyWordInv(cfg: Config, s: State, c: nat, k: nat)
    requires Inv(cfg, s) && Enabled(cfg, s, CopyWord(c, k))
    ensures Inv(cfg, Step(cfg, s, CopyWord(c, k)))
  {
    var s' := Step(cfg, s, CopyWord(c, k));
    VersionDecides(cfg, s, s.consumers[c].reader);
    forall d | 0 <= d < |s'.consumers|
      ensures ConsumerInv(cfg, s, s'.consumers[d])
    {
      assert ConsumerInv(cfg, s, s.consumers[d]);
    }
    ConsumersInv(cfg, s, s'.consumers);
  }

  /** A pop that returns true has read version `2 * (generation + 1)` before and after its copy, and
      its copy is exactly the value of push number `reader`: never torn, never a later push. */
  lemma {:induction false} PopReturnsPushNumberReader(cfg: Config, s: State, c: nat)
    requires Inv(cfg, s) && Enabled(cfg, s, LoadAfter(c))
    ensures
      var con, con' := s.consumers[c], Step(cfg, s, LoadAfter(c)).consumers[c];
      if Opened(s) <= con.reader + cfg.size
      then con.reader < |s.history| && con' == Consumer(con.start, con.reader + 1, con.popped + [s.history[con.reader]], Ready)
      else con' == con.(pc := Overrun)
  {
    var con := s.consumers[c];
    assert ConsumerInv(cfg, s, con);
    VersionDecides(cfg, s, con.reader);
    if Opened(s) <= con.reader + cfg.size {
      assert Assemble(cfg.words, con.pc.temp) == s.history[con.reader];
    }
  }

  lemma {:induction false} LoadAfterInv(cfg: Config, s: State, c: nat)
    requires Inv(cfg, s) && Enabled(cfg, s, LoadAfter(c))
    ensures Inv(cfg, Step(cfg, s, LoadAfter(c)))
  {
    var s' := Step(cfg, s, LoadAfter(c));
    PopReturnsPushNumberReader(cfg, s, c);
    forall d | 0 <= d < |s'.consumers|
      ensures ConsumerInv(cfg, s, s'.consumers[d])
    {
      assert ConsumerInv(cfg, s, s.consumers[d]);
    }
    ConsumersInv(cfg, s, s'.consumers);
  }

  /** Every step of the producer and of every consumer keeps the invariant. */
  lemma {:induction false} StepInv(cfg: Config, s: State, a: Action)
    requires Inv(cfg, s) && Enabled(cfg, s, a)
    ensures Inv(cfg, Step(cfg, s, a))
  {
    match a
    case LoadWriter(val) => LoadWriterInv(cfg, s, val);
    case LoadVersion => LoadVersionInv(cfg, s);
    case StoreOdd => StoreOddInv(cfg, s);
    case StoreWord(k) => StoreWordInv(cfg, s, k);
    case StoreEven => StoreEvenInv(cfg, s);
    case StoreWriter => StoreWriterInv(cfg, s);
    case MakeConsumer => MakeConsumerInv(cfg, s);
    case LoadBefore(c) => LoadBeforeInv(cfg, s, c);
    case CopyWord(c, k) => CopyWordInv(cfg, s, c, k);
    case LoadAfter(c) => LoadAfterInv(cfg, s, c);
  }

  lemma {:induction false} RunInv(cfg: Config, s: State, acts: seq<Action>, s': State)
    requires Inv(cfg, s) && IsRun(cfg, s, acts, s')
    ensures Inv(cfg, s')
    decreases |acts|
  {
    if acts == [] {
    } else {
      StepInv(cfg, s, acts[0]);
      RunInv(cfg, Step(cfg, s, acts[0]), acts[1..], s');
    }
  }

  /** The invariant holds in every reachable state. */
  lemma {:induction false} ReachableInv(cfg: Config, s: State)
    requires Reachable(cfg, s)
    ensures Inv(cfg, s)
  {
    var s0, acts :| Init(cfg, s0) && IsRun(cfg, s0, acts, s);
    InitInv(cfg, s0);
    RunInv(cfg, s0, acts, s);
  }
}
