/** The broadcast ring as the objects the code declares, with uninterrupted `push` and `pop`. Each
    method is a run of the step system, so what holds of every interleaving holds of these calls. */
module SpmcQueue {
  import opened Bits
  import opened Words
  import opened SlotCounting
  import opened SpmcSteps
  import opened SpmcTheorems

  datatype PopResult = NothingNew | Popped(val: Value) | Overran

  class SPMCQueue {
    const cfg: Config
    const versions: array<nat>
    const buffer: array<Value>
    var writer: nat
    ghost var history: seq<Value>

    ghost predicate Valid()
      reads this, versions, buffer
    {
      && cfg.Valid()
      && cfg.size > 0
      && versions.Length == cfg.size
      && buffer.Length == cfg.size
      && Inv(cfg, Abs([]))
    }

    /** The state of the step system, for a given list of consumers. */
    ghost function Abs(consumers: seq<SpmcSteps.Consumer>): State
      requires versions.Length == buffer.Length
      reads this, versions, buffer
    {
      var slots := seq(versions.Length, i requires 0 <= i < versions.Length
                                          reads versions, buffer, this
                                          requires versions.Length == buffer.Length
                                        => Slot(versions[i], buffer[i]));
      State(slots, writer, Idle, consumers, history)
    }

    constructor (cfg: Config)
      requires cfg.Valid()
      ensures Valid() && fresh(versions) && fresh(buffer)
      ensures this.cfg == cfg && history == []
      ensures Init(cfg, Abs([]))
    {
      SingleBitIsPow2(cfg.size);
      this.cfg := cfg;
      this.versions := new nat[cfg.size](_ => 0);
      this.buffer := new Value[cfg.size](_ => seq(cfg.words, _ => 0));
      this.writer := 0;
      this.history := [];
      new;
      InitInv(cfg, Abs([]));
    }

    /** A consumer that begins at the writer index joins any others by one step. */
    lemma MakeIsRun()
      requires Valid()
      ensures forall consumers ::
                IsRun(cfg, Abs(consumers), [MakeConsumer], Abs(consumers + [SpmcSteps.Consumer(writer, writer, [], Ready)]))
    {
      assert WellFormed(cfg, Abs([]));
      forall consumers
        ensures IsRun(cfg, Abs(consumers), [MakeConsumer], Abs(consumers + [SpmcSteps.Consumer(writer, writer, [], Ready)]))
      {
        RunOne(cfg, Abs(consumers), MakeConsumer);
      }
    }

    /** The consumer after it has taken the value in its slot. */
    ghost function Taken(con: SpmcSteps.Consumer): SpmcSteps.Consumer
      requires buffer.Length > 0
      reads buffer
    {
      SpmcSteps.Consumer(con.start, con.reader + 1, con.popped + [buffer[con.reader % buffer.Length]], Ready)
    }

    /** Taking the value of a slot with the expected version is a run of the step system, next to any other
        consumers. */
    lemma PopIsRun(con: SpmcSteps.Consumer)
      requires Valid() && con.pc.Ready?
      requires versions[con.reader % cfg.size] == cfg.Expected(con.reader)
      ensures forall consumers, c: nat | c < |consumers| && consumers[c] == con ::
                IsRun(cfg, Abs(consumers), PopActions(cfg, c), Abs(consumers[c := Taken(con)]))
    {
      assert WellFormed(cfg, Abs([]));
      forall consumers, c: nat | c < |consumers| && consumers[c] == con
        ensures IsRun(cfg, Abs(consumers), PopActions(cfg, c), Abs(consumers[c := Taken(con)]))
      {
        PopRun(cfg, Abs(consumers), c);
        assert Abs(consumers[c := Taken(con)]) == AfterPop(cfg, Abs(consumers), c);
      }
    }

    /** And that value is the push the consumer was waiting for. */
    lemma TakesNextPush(con: SpmcSteps.Consumer)
      requires Valid() && con.pc.Ready? && ConsumerInv(cfg, Abs([]), con)
      requires versions[con.reader % cfg.size] == cfg.Expected(con.reader)
      ensures con.reader < |history| && buffer[con.reader % cfg.size] == history[con.reader]
      ensures ConsumerInv(cfg, Abs([]), Taken(con))
    {
      VersionDecides(cfg, Abs([]), con.reader);
    }

    method Push(val: Value)
      requires Valid() && |val| == cfg.words
      modifies this, versions, buffer
      ensures Valid()
      ensures history == old(history) + [val] && writer == old(writer) + 1
      ensures forall consumers :: IsRun(cfg, old(Abs(consumers)), PushActions(cfg, val), Abs(consumers))
      ensures forall con: SpmcSteps.Consumer :: con.pc.Ready? && old(ConsumerInv(cfg, Abs([]), con))
                ==> ConsumerInv(cfg, Abs([]), con)
    {
      RingArithmetic(writer, cfg.size);
      var w := writer;
      var i := And(w, cfg.size - 1);
      var slotVer := versions[i];
      versions[i] := slotVer + 1;
      buffer[i] := val;
      versions[i] := slotVer + 2;
      writer := w + 1;
      history := history + [val];
      forall consumers
        ensures Abs(consumers) == AfterPush(cfg, old(Abs(consumers)), val)
        ensures IsRun(cfg, old(Abs(consumers)), PushActions(cfg, val), Abs(consumers))
      {
        assert WellFormed(cfg, old(Abs([])));
        PushRun(cfg, old(Abs(consumers)), val);
        assert Abs(consumers).slots == AfterPush(cfg, old(Abs(consumers)), val).slots;
      }
      RunInv(cfg, old(Abs([])), PushActions(cfg, val), Abs([]));
      forall con: SpmcSteps.Consumer | con.pc.Ready? && old(ConsumerInv(cfg, Abs([]), con))
        ensures ConsumerInv(cfg, Abs([]), con)
      {
      }
    }
  }

  class Consumer {
    const queue: SPMCQueue
    var reader: nat
    ghost var start: nat
    ghost var popped: seq<Value>

    ghost predicate Valid()
      reads this, queue, queue.versions, queue.buffer
    {
      queue.Valid() && ConsumerInv(queue.cfg, queue.Abs([]), Abs())
    }

    ghost function Abs(): SpmcSteps.Consumer
      reads this
    {
      SpmcSteps.Consumer(start, reader, popped, Ready)
    }

    /** `make_consumer`: reading starts at the current writer index. */
    constructor (queue: SPMCQueue)
      requires queue.Valid()
      ensures Valid() && this.queue == queue
      ensures reader == start == queue.writer && popped == []
      ensures forall consumers ::
                IsRun(queue.cfg, queue.Abs(consumers), [MakeConsumer], queue.Abs(consumers + [Abs()]))
    {
      this.queue := queue;
      this.reader := queue.writer;
      this.start := queue.writer;
      this.popped := [];
      queue.MakeIsRun();
    }

    /** Returns the next push in order, reports that there is none, or reports that the consumer
        fell more than a whole ring behind. */
    method Pop() returns (r: PopResult)
      requires Valid()
      modifies this
      ensures Valid() && start == old(start)
      ensures r.NothingNew? <==> |queue.history| == old(reader)
      ensures r.Overran? <==> old(reader) + queue.cfg.size < |queue.history|
      ensures r.Popped? ==>
                && old(reader) < |queue.history| && r.val == queue.history[old(reader)]
                && reader == old(reader) + 1 && popped == old(popped) + [r.val]
      ensures !r.Popped? ==> reader == old(reader) && popped == old(popped)
      ensures r.Popped? ==> forall consumers, c: nat | c < |consumers| && consumers[c] == old(Abs()) ::
                IsRun(queue.cfg, queue.Abs(consumers), PopActions(queue.cfg, c), queue.Abs(consumers[c := Abs()]))
    {
      ghost var s := queue.Abs([]);
      VersionDecides(queue.cfg, s, reader);
      var rIdx := And(reader, queue.cfg.size - 1);
      var gen := ShiftRight(reader, CountrZero(queue.cfg.size));
      var expected := 2 * (gen + 1);
      var v1 := queue.versions[rIdx];
      if v1 > expected {
        return Overran;
      }
      if v1 < expected {
        return NothingNew;
      }
      var temp := queue.buffer[rIdx];
      var v2 := queue.versions[rIdx];
      if v2 != expected {
        return Overran;
      }
      queue.PopIsRun(Abs());
      queue.TakesNextPush(Abs());
      reader := reader + 1;
      popped := popped + [temp];
      assert Abs() == queue.Taken(old(Abs()));
      return Popped(temp);
    }
  }
}
