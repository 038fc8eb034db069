/** The single-producer single-consumer ring as the object the code declares: calls that run without
    interruption, and the destructor that drains what is left. */
module SpscQueue {
  import opened Bits
  import opened SlotCounting
  import opened Words
  import opened Shared
  import opened SpscSteps
  import opened SpscRuns

  class SPSCQueue {
    const ring: Ring
    const buffer: array<Value>
    var reader: nat
    var writer: nat
    ghost var live: set<nat>
    ghost var pushed: seq<Value>
    ghost var popped: seq<Value>

    ghost function Abs(): QState
      reads this, buffer
    {
      QState(buffer[..], live, writer, reader, PushIdle, PopIdle, pushed, popped)
    }

    ghost predicate Valid()
      reads this, buffer
    {
      QInv(ring, Abs())
    }

    /** The values waiting in the queue. */
    ghost function Contents(): seq<Value>
      requires Valid()
      reads this, buffer
    {
      pushed[|popped|..]
    }

    constructor (ring: Ring)
      requires ring.Ok()
      ensures Valid() && fresh(buffer) && this.ring == ring
      ensures pushed == [] && popped == [] && QInit(ring, Abs())
    {
      this.ring := ring;
      this.buffer := new Value[ring.size](_ => seq(ring.words, _ => 0));
      this.reader := 0;
      this.writer := 0;
      this.live := {};
      this.pushed := [];
      this.popped := [];
      new;
      QInitInv(ring, Abs());
    }

    /** Stores the value unless the queue is full: all slots but one hold a value. */
    method TryPush(val: Value) returns (ok: bool)
      requires Valid() && |val| == ring.words
      modifies this, buffer
      ensures Valid()
      ensures ok <==> |old(Contents())| < ring.size - 1
      ensures Contents() == if ok then old(Contents()) + [val] else old(Contents())
      ensures if ok then IsQRun(ring, old(Abs()), PushActions(ring, val), Abs()) else Abs() == old(Abs())
      ensures popped == old(popped) && pushed == if ok then old(pushed) + [val] else old(pushed)
    {
      UsedIsTrueDifference(|pushed|, |popped|);
      var w := writer;
      var avail := Used(w, reader);
      var freeSpace := ring.size - 1 - avail;
      if freeSpace < 1 {
        return false;
      }
      ghost var s := Abs();
      PushRun(ring, s, val);
      QRunInv(ring, s, PushActions(ring, val), AfterPush(ring, s, val));
      var i := ring.Slot(w);
      buffer[i] := val;
      live := live + {i};
      writer := Inc(w);
      pushed := pushed + [val];
      assert Abs() == AfterPush(ring, s, val);
      return true;
    }

    /** Takes the oldest value unless the queue is empty. */
    method TryPop() returns (r: Option<Value>)
      requires Valid()
      modifies this
      ensures Valid()
      ensures r.None? <==> old(Contents()) == []
      ensures r.Some? ==> old(Contents()) == [r.value] + Contents()
      ensures if r.Some? then IsQRun(ring, old(Abs()), PopActions(ring), Abs()) else unchanged(this)
      ensures r.Some? ==> popped == old(popped) + [r.value] && pushed == old(pushed)
    {
      UsedIsTrueDifference(|pushed|, |popped|);
      var rd := reader;
      if rd == writer {
        return None;
      }
      ghost var s := Abs();
      PopRun(ring, s);
      QRunInv(ring, s, PopActions(ring), AfterPop(ring, s));
      var i := ring.Slot(rd);
      var val := buffer[i];
      live := live - {i};
      reader := Inc(rd);
      popped := popped + [val];
      assert Abs() == AfterPop(ring, s);
      return Some(val);
    }

    ghost method DestroyAt(slot: nat)
      requires slot in live
      modifies this`live
      ensures live == old(live) - {slot}
    {
      live := live - {slot};
    }

    /** The destructor: it walks the wrapped counters from `reader` to `writer` and destroys every
        object still held, each once, and no slot that holds none. */
    method Destroy()
      requires Valid()
      modifies this`live
      ensures live == {}
    {
      var rd := reader;
      var w := writer;
      ghost var c := |popped|;
      while rd != w
        invariant |popped| <= c <= |pushed| && rd == c % TWO_TO_64
        invariant live == SlotsOf(c, |pushed|, ring.size)
        decreases |pushed| - c
      {
        UsedIsTrueDifference(|pushed|, c);
        WrappedSlot(ring, c);
        SlotsOfDropFirst(c, |pushed|, ring.size);
        NotInSlots(c + 1, |pushed|, ring.size, c);
        DestroyAt(ring.Slot(rd));
        IncWraps(c);
        rd := Inc(rd);
        c := c + 1;
      }
      UsedIsTrueDifference(|pushed|, c);
    }
  }
}
