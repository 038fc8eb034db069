/** The single-producer single-consumer ring as a step system. Indices are free-running 64-bit
    counters that wrap; every index load, index store, constructed word and copied word is a step. */
module SpscSteps {
  import opened Bits
  import opened SlotCounting
  import opened Words

  datatype Ring = Ring(size: nat, words: nat) {
    /** The static assertion on the number of slots. */
    predicate Ok() {
      0 < size < TWO_TO_64 && And(size, size - 1) == 0
    }

    function Slot(index: nat): nat
      requires size > 0
    {
      And(index, size - 1)
    }
  }

  /** Subtraction and increment of 64-bit counters. */
  function Used(writer: nat, reader: nat): (n: nat) {
    (writer as int - reader) % TWO_TO_64
  }

  function Inc(index: nat): nat {
    (index + 1) % TWO_TO_64
  }

  datatype PushPc =
    | PushIdle
    | PushLoaded(val: Value, w: nat)
    | Building(val: Value, w: nat, stored: set<nat>)
    | Built(val: Value, w: nat)

  datatype PopPc =
    | PopIdle
    | PopLoaded(r: nat)
    | Taking(r: nat, temp: map<nat, Word>)
    | Taken(r: nat, val: Value)

  /** `live` is the set of slots that hold a constructed object; `pushed` and `popped` record the
      completed calls. */
  datatype QState = QState(
    slots: seq<Value>, live: set<nat>, writer: nat, reader: nat, push: PushPc, pop: PopPc,
    pushed: seq<Value>, popped: seq<Value>)

  datatype QAction =
    | PushLoadWriter(val: Value)
    | PushLoadReader
    | BuildWord(k: nat)
    | FinishBuild
    | PublishWriter
    | PopLoadReader
    | PopLoadWriter
    | TakeWord(k: nat)
    | FinishTake
    | PublishReader

  predicate Shape(ring: Ring, s: QState) {
    && ring.Ok()
    && |s.slots| == ring.size
    && (forall i | 0 <= i < ring.size :: |s.slots[i]| == ring.words)
  }

  predicate QInit(ring: Ring, s: QState) {
    && Shape(ring, s)
    && s.live == {} && s.writer == 0 && s.reader == 0
    && s.push == PushIdle && s.pop == PopIdle && s.pushed == [] && s.popped == []
  }

  predicate QEnabled(ring: Ring, s: QState, a: QAction)
    requires Shape(ring, s)
  {
    match a
    case PushLoadWriter(val) => s.push.PushIdle? && |val| == ring.words
    case PushLoadReader => s.push.PushLoaded?
    case BuildWord(k) =>
      && s.push.Building? && ring.Slot(s.push.w) < |s.slots|
      && k < ring.words && k < |s.push.val| && k !in s.push.stored
    case FinishBuild => s.push.Building? && s.push.stored == Keys(ring.words)
    case PublishWriter => s.push.Built?
    case PopLoadReader => s.pop.PopIdle?
    case PopLoadWriter => s.pop.PopLoaded?
    case TakeWord(k) =>
      && s.pop.Taking? && ring.Slot(s.pop.r) < |s.slots|
      && k < ring.words && k !in s.pop.temp
    case FinishTake => s.pop.Taking? && s.pop.temp.Keys == Keys(ring.words)
    case PublishReader => s.pop.Taken?
  }

  function QStep(ring: Ring, s: QState, a: QAction): QState
    requires Shape(ring, s) && QEnabled(ring, s, a)
  {
    match a
    case PushLoadWriter(val) => s.(push := PushLoaded(val, s.writer))
    case PushLoadReader =>
      var p := s.push;
      var freeSpace := ring.size - 1 - Used(p.w, s.reader);
      s.(push := if freeSpace < 1 then PushIdle else Building(p.val, p.w, {}))
    case BuildWord(k) =>
      var p := s.push;
      var i := ring.Slot(p.w);
      s.(slots := s.slots[i := s.slots[i][k := p.val[k]]], push := p.(stored := p.stored + {k}))
    case FinishBuild =>
      s.(live := s.live + {ring.Slot(s.push.w)}, push := Built(s.push.val, s.push.w))
    case PublishWriter =>
      s.(writer := Inc(s.push.w), pushed := s.pushed + [s.push.val], push := PushIdle)
    case PopLoadReader => s.(pop := PopLoaded(s.reader))
    case PopLoadWriter =>
      s.(pop := if s.pop.r == s.writer then PopIdle else Taking(s.pop.r, map[]))
    case TakeWord(k) =>
      s.(pop := s.pop.(temp := s.pop.temp[k := s.slots[ring.Slot(s.pop.r)][k]]))
    case FinishTake =>
      s.(live := s.live - {ring.Slot(s.pop.r)}, pop := Taken(s.pop.r, Assemble(ring.words, s.pop.temp)))
    case PublishReader =>
      s.(reader := Inc(s.pop.r), popped := s.popped + [s.pop.val], pop := PopIdle)
  }

  predicate IsQRun(ring: Ring, s: QState, acts: seq<QAction>, s': QState)
    decreases |acts|
  {
    Shape(ring, s) &&
    if acts == [] then s == s'
    else QEnabled(ring, s, acts[0]) && IsQRun(ring, QStep(ring, s, acts[0]), acts[1..], s')
  }

  ghost predicate QReachable(ring: Ring, s: QState) {
    exists s0, acts :: QInit(ring, s0) && IsQRun(ring, s0, acts, s)
  }

  // ----- Wrapping index arithmetic -----

  /** A slot index computed from a wrapped counter is the slot of the true count. */
  lemma {:induction false} WrappedSlot(ring: Ring, count: nat)
    requires ring.Ok()
    ensures ring.Slot(count % TWO_TO_64) == count % ring.size < ring.size
  {
    ClearLowestBit(ring.size);
    SingleBitIsPow2(ring.size);
    var k := CountrZero(ring.size);
    Pow2Values();
    Pow2Monotone(64, k);
    Pow2Add(k, 64 - k);
    RingArithmetic(count % TWO_TO_64, ring.size);
    ModOfMod(count, ring.size, Pow2(64 - k), TWO_TO_64);
    DivModIdentity(count, ring.size);
  }

  lemma {:induction false} IncWraps(count: nat)
    ensures Inc(count % TWO_TO_64) == (count + 1) % TWO_TO_64
  {
  }

  /** Wrapped subtraction gives the true difference as long as that is below 2^64. */
  lemma {:induction false} UsedIsTrueDifference(p: nat, c: nat)
    requires c <= p < c + TWO_TO_64
    ensures Used(p % TWO_TO_64, c % TWO_TO_64) == p - c
    ensures p % TWO_TO_64 == c % TWO_TO_64 <==> p == c
  {
  }

  // ----- The invariant -----

  /** The slots of the counts from `a` up to `b`. */
  function SlotsOf(a: nat, b: nat, size: nat): set<nat>
    requires size > 0
    decreases b
  {
    if b <= a then {} else SlotsOf(a, b - 1, size) + {(b - 1) % size}
  }

  lemma {:induction false} SlotsOfMember(a: nat, b: nat, size: nat, i: nat)
    requires size > 0 && i in SlotsOf(a, b, size)
    ensures exists j :: a <= j < b && j % size == i
    decreases b
  {
    if (b - 1) % size == i {
    } else {
      SlotsOfMember(a, b - 1, size, i);
    }
  }

  /** Within one lap all slots differ. */
  lemma {:induction false} NotInSlots(a: nat, b: nat, size: nat, x: nat)
    requires size > 0 && (b <= x < a + size || (x < a && b <= x + size))
    ensures x % size !in SlotsOf(a, b, size)
  {
    if x % size in SlotsOf(a, b, size) {
      SlotsOfMember(a, b, size, x % size);
      var j :| a <= j < b && j % size == x % size;
      if j < x {
        SameSlotGap(j, x, size);
      } else {
        SameSlotGap(x, j, size);
      }
    }
  }

  lemma {:induction false} SlotsOfDropFirst(a: nat, b: nat, size: nat)
    requires size > 0 && a < b
    ensures SlotsOf(a, b, size) == {a % size} + SlotsOf(a + 1, b, size)
    decreases b
  {
    if a == b - 1 {
    } else {
      SlotsOfDropFirst(a, b - 1, size);
    }
  }

  function First(s: QState): nat {
    if s.pop.Taken? then |s.popped| + 1 else |s.popped|
  }

  function Last(s: QState): nat {
    if s.push.Built? then |s.pushed| + 1 else |s.pushed|
  }

  predicate IndexInv(ring: Ring, s: QState) {
    var c, p := |s.popped|, |s.pushed|;
    && s.popped <= s.pushed
    && c <= p < c + ring.size
    && s.writer == p % TWO_TO_64 && s.reader == c % TWO_TO_64
    && (s.push.PushLoaded? || s.push.Building? || s.push.Built? ==> s.push.w == s.writer && |s.push.val| == ring.words)
    && (s.push.Building? || s.push.Built? ==> p + 1 < c + ring.size)
    && (s.pop.PopLoaded? || s.pop.Taking? || s.pop.Taken? ==> s.pop.r == s.reader)
    && (s.pop.Taking? || s.pop.Taken? ==> c < p)
  }

  predicate ContentInv(ring: Ring, s: QState)
    requires Shape(ring, s)
  {
    var c, p := |s.popped|, |s.pushed|;
    && (forall j | 0 <= j < p :: |s.pushed[j]| == ring.words)
    && (forall j | c <= j < p :: s.slots[j % ring.size] == s.pushed[j])
    && (s.push.Building? ==>
          && s.push.stored <= Keys(ring.words)
          && forall k | k in s.push.stored ::
               k < |s.push.val| && k < ring.words && s.slots[p % ring.size][k] == s.push.val[k])
    && (s.push.Built? ==> s.slots[p % ring.size] == s.push.val)
    && (s.pop.Taking? ==>
          && s.pop.temp.Keys <= Keys(ring.words)
          && c < p && forall k | k in s.pop.temp :: k < |s.pushed[c]| && s.pop.temp[k] == s.pushed[c][k])
    && (s.pop.Taken? ==> c < p && s.pop.val == s.pushed[c])
  }

  predicate LiveInv(ring: Ring, s: QState)
    requires ring.size > 0
  {
    s.live == SlotsOf(First(s), Last(s), ring.size)
  }

  predicate QInv(ring: Ring, s: QState) {
    Shape(ring, s) && IndexInv(ring, s) && ContentInv(ring, s) && LiveInv(ring, s)
  }

  lemma QInitInv(ring: Ring, s: QState)
    requires QInit(ring, s)
    ensures QInv(ring, s)
  {
    UsedIsTrueDifference(0, 0);
  }

  /** A slot in use is never the slot the producer is building in. */
  lemma {:induction false} ProducerSlotIsFree(ring: Ring, s: QState, j: nat)
    requires QInv(ring, s) && (s.push.Building? || s.push.Built?)
    requires |s.popped| <= j < |s.pushed|
    ensures j % ring.size != |s.pushed| % ring.size
  {
    if j % ring.size == |s.pushed| % ring.size {
      SameSlotGap(j, |s.pushed|, ring.size);
    }
  }

  lemma {:induction false} BuildWordInv(ring: Ring, s: QState, k: nat)
    requires QInv(ring, s) && QEnabled(ring, s, BuildWord(k))
    ensures QInv(ring, QStep(ring, s, BuildWord(k)))
  {
    var s' := QStep(ring, s, BuildWord(k));
    var p := |s.pushed|;
    WrappedSlot(ring, p);
    forall j | |s.popped| <= j < p
      ensures s'.slots[j % ring.size] == s'.pushed[j]
    {
      ProducerSlotIsFree(ring, s, j);
      DivModIdentity(j, ring.size);
    }
  }

  lemma {:induction false} FinishBuildInv(ring: Ring, s: QState)
    requires QInv(ring, s) && QEnabled(ring, s, FinishBuild)
    ensures QInv(ring, QStep(ring, s, FinishBuild))
    ensures ring.Slot(s.push.w) !in s.live
  {
    var p := |s.pushed|;
    WrappedSlot(ring, p);
    assert s.slots[p % ring.size] == s.push.val;
    NotInSlots(First(s), p, ring.size, p);
  }

  lemma {:induction false} FinishTakeInv(ring: Ring, s: QState)
    requires QInv(ring, s) && QEnabled(ring, s, FinishTake)
    ensures QInv(ring, QStep(ring, s, FinishTake))
    ensures ring.Slot(s.pop.r) in s.live
  {
    var c := |s.popped|;
    WrappedSlot(ring, c);
    assert Assemble(ring.words, s.pop.temp) == s.pushed[c];
    SlotsOfDropFirst(c, Last(s), ring.size);
    NotInSlots(c + 1, Last(s), ring.size, c);
  }

  lemma {:induction false} TakeWordInv(ring: Ring, s: QState, k: nat)
    requires QInv(ring, s) && QEnabled(ring, s, TakeWord(k))
    ensures QInv(ring, QStep(ring, s, TakeWord(k)))
  {
    WrappedSlot(ring, |s.popped|);
  }

  lemma {:induction false} PublishInv(ring: Ring, s: QState, a: QAction)
    requires QInv(ring, s) && QEnabled(ring, s, a) && (a.PublishWriter? || a.PublishReader?)
    ensures QInv(ring, QStep(ring, s, a))
  {
    IncWraps(|s.pushed|);
    IncWraps(|s.popped|);
  }

  lemma {:induction false} LoadInv(ring: Ring, s: QState, a: QAction)
    requires QInv(ring, s) && QEnabled(ring, s, a)
    requires a.PushLoadWriter? || a.PushLoadReader? || a.PopLoadReader? || a.PopLoadWriter?
    ensures QInv(ring, QStep(ring, s, a))
  {
    UsedIsTrueDifference(|s.pushed|, |s.popped|);
  }

  lemma {:induction false} QStepInv(ring: Ring, s: QState, a: QAction)
    requires QInv(ring, s) && QEnabled(ring, s, a)
    ensures QInv(ring, QStep(ring, s, a))
  {
    match a
    case BuildWord(k) => BuildWordInv(ring, s, k);
    case FinishBuild => FinishBuildInv(ring, s);
    case TakeWord(k) => TakeWordInv(ring, s, k);
    case FinishTake => FinishTakeInv(ring, s);
    case PublishWriter => PublishInv(ring, s, a);
    case PublishReader => PublishInv(ring, s, a);
    case _ => LoadInv(ring, s, a);
  }

  lemma {:induction false} QRunInv(ring: Ring, s: QState, acts: seq<QAction>, s': QState)
    requires QInv(ring, s) && IsQRun(ring, s, acts, s')
    ensures QInv(ring, s')
    decreases |acts|
  {
    if acts == [] {
    } else {
      QStepInv(ring, s, acts[0]);
      QRunInv(ring, QStep(ring, s, acts[0]), acts[1..], s');
    }
  }

  lemma {:induction false} QReachableInv(ring: Ring, s: QState)
    requires QReachable(ring, s)
    ensures QInv(ring, s)
  {
    var s0, acts :| QInit(ring, s0) && IsQRun(ring, s0, acts, s);
    QInitInv(ring, s0);
    QRunInv(ring, s0, acts, s);
  }

  // ----- What holds in every reachable state -----

  /** First in, first out, across counter wraparound and whatever the interleaving: the popped values
      are a prefix of the pushed values, and the wrapped index difference is the exact number of
      values in between, never more than one slot short of full. */
  lemma {:induction false} Fifo(ring: Ring, s: QState)
    requires QReachable(ring, s)
    ensures s.popped <= s.pushed
    ensures Used(s.writer, s.reader) == |s.pushed| - |s.popped| < ring.size
  {
    QReachableInv(ring, s);
    UsedIsTrueDifference(|s.pushed|, |s.popped|);
  }

  /** The slot being constructed into and the slot being read from are never the same. */
  lemma {:induction false} NoSharedSlot(ring: Ring, s: QState)
    requires QReachable(ring, s) && (s.push.Building? || s.push.Built?) && (s.pop.Taking? || s.pop.Taken?)
    ensures ring.size > 0 && ring.Slot(s.push.w) != ring.Slot(s.pop.r)
  {
    QReachableInv(ring, s);
    WrappedSlot(ring, |s.pushed|);
    WrappedSlot(ring, |s.popped|);
    ProducerSlotIsFree(ring, s, |s.popped|);
  }

  /** A push is refused exactly when, at its load of the reader index, the queue holds all the
      `size - 1` values it can hold; a pop is refused exactly when, at its load of the writer index,
      the queue is empty. */
  lemma {:induction false} RefusalsAreExact(ring: Ring, s: QState)
    requires QReachable(ring, s)
    ensures Shape(ring, s)
    ensures QEnabled(ring, s, PushLoadReader) ==>
              (QStep(ring, s, PushLoadReader).push.PushIdle? <==> |s.pushed| - |s.popped| == ring.size - 1)
    ensures QEnabled(ring, s, PopLoadWriter) ==>
              (QStep(ring, s, PopLoadWriter).pop.PopIdle? <==> |s.pushed| == |s.popped|)
  {
    QReachableInv(ring, s);
    UsedIsTrueDifference(|s.pushed|, |s.popped|);
  }

  /** Objects are constructed only in slots that hold none and destroyed only in slots that hold one. */
  lemma {:induction false} LifetimesBalance(ring: Ring, s: QState)
    requires QReachable(ring, s)
    ensures Shape(ring, s)
    ensures QEnabled(ring, s, FinishBuild) ==> ring.Slot(s.push.w) !in s.live
    ensures QEnabled(ring, s, FinishTake) ==> ring.Slot(s.pop.r) in s.live
  {
    QReachableInv(ring, s);
    if QEnabled(ring, s, FinishBuild) {
      FinishBuildInv(ring, s);
    }
    if QEnabled(ring, s, FinishTake) {
      FinishTakeInv(ring, s);
    }
  }
}
