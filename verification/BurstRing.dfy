/**
 The burst recorder's ring: the step thread pushes records, the MSP thread drains them,
 without a lock. The class is the code run by one thread at a time; the state machine
 below it interleaves every separate read and write of head, tail and slots.
 */
module BurstRing {
  import opened Circular
  import opened Common

  const RING := 4096

  class Ring<R> {
    const slots: array<R>
    var head: nat
    var tail: nat
    var dropped: nat

    constructor (blank: R)
      ensures Valid() && Contents() == [] && dropped == 0 && fresh(slots)
    {
      slots := new R[RING](_ => blank);
      head, tail, dropped := 0, 0, 0;
    }

    ghost predicate Valid()
      reads this
    {
      slots.Length == RING && head < RING && tail < RING
    }

    ghost function Contents(): seq<R>
      requires Valid()
      reads this, slots
    {
      Queue(slots[..], head, tail)
    }

    /** sitlBurstPush() */
    method Push(rec: R)
      requires Valid()
      modifies this`head, this`dropped, slots
      ensures Valid()
      ensures |old(Contents())| < 4095 ==> Contents() == old(Contents()) + [rec] && dropped == old(dropped)
      ensures |old(Contents())| == 4095 ==> Contents() == old(Contents()) && dropped == old(dropped) + 1
    {
      ghost var before := slots[..];
      var next := if head + 1 == RING then 0 else head + 1;
      if next == tail {
        dropped := dropped + 1;
        return;
      }
      PushExtends(before, head, tail, rec);
      slots[head] := rec;
      assert slots[..] == before[head := rec];
      head := next;
    }

    /** The loop of sitlBurstDrain(): `written` is what goes to the file. */
    method Drain() returns (written: seq<R>)
      requires Valid()
      modifies this`tail
      ensures Valid() && Contents() == []
      ensures written == old(Contents())
    {
      hide Window;
      written := [];
      while tail != head
        invariant Valid()
        invariant written + Contents() == old(Contents())
        decreases |Contents()|
      {
        ghost var queued := Contents();
        PopTakesOldest(slots[..], head, tail);
        ShiftHead(written, queued);
        written := written + [slots[tail]];
        tail := if tail + 1 == RING then 0 else tail + 1;
        assert Contents() == queued[1..];
      }
    }
  }

  // ---- two threads ----

  /** Where the step thread is inside sitlBurstPush(); it keeps its own copies of what it read. */
  datatype Producer<R> =
    | Between
    | HeadRead(rec: R, head: nat)
    | Filling(rec: R, head: nat, next: nat)   // the slot is being copied, field by field
    | Filled(rec: R, next: nat)

  /** Where the MSP thread is inside the drain loop. */
  datatype Consumer =
    | Outside
    | TailRead(tail: nat)
    | Reading(tail: nat)                      // fprintf() is reading the slot's fields
    | Written(tail: nat)

  datatype State<R> = State(
    slots: seq<R>,
    head: nat,
    tail: nat,
    dropped: nat,
    producer: Producer<R>,
    consumer: Consumer,
    // history
    offered: seq<(R, bool)>,                  // every finished push, and whether it was accepted
    taken: nat,                               // how often the tail has been advanced
    written: seq<R>)                          // the records that went to the file

  datatype Step<R> =
    | ReadHead(rec: R)
    | CheckTail
    | TearSlot(junk: R)                       // the slot while the copy is incomplete
    | FillSlot
    | PublishHead
    | ReadTail
    | CompareHead
    | WriteRecord
    | AdvanceTail

  predicate Enabled<R>(s: State<R>, step: Step<R>) {
    match step
    case ReadHead(_) => s.producer.Between?
    case CheckTail => s.producer.HeadRead?
    case TearSlot(_) => s.producer.Filling? && s.producer.head < |s.slots|
    case FillSlot => s.producer.Filling? && s.producer.head < |s.slots|
    case PublishHead => s.producer.Filled?
    case ReadTail => s.consumer.Outside?
    case CompareHead => s.consumer.TailRead?
    case WriteRecord => s.consumer.Reading? && s.consumer.tail < |s.slots|
    case AdvanceTail => s.consumer.Written?
  }

  function Apply<R>(s: State<R>, step: Step<R>): State<R>
    requires Enabled(s, step)
  {
    match step
    case ReadHead(rec) => s.(producer := HeadRead(rec, s.head))
    case CheckTail =>
      var next := if s.producer.head + 1 == RING then 0 else s.producer.head + 1;
      if next == s.tail then
        s.(dropped := s.dropped + 1, producer := Between, offered := s.offered + [(s.producer.rec, false)])
      else s.(producer := Filling(s.producer.rec, s.producer.head, next))
    case TearSlot(junk) => s.(slots := s.slots[s.producer.head := junk])
    case FillSlot =>
      s.(slots := s.slots[s.producer.head := s.producer.rec], producer := Filled(s.producer.rec, s.producer.next))
    case PublishHead =>
      s.(head := s.producer.next, producer := Between, offered := s.offered + [(s.producer.rec, true)])
    case ReadTail => s.(consumer := TailRead(s.tail))
    case CompareHead =>
      if s.consumer.tail == s.head then s.(consumer := Outside) else s.(consumer := Reading(s.consumer.tail))
    case WriteRecord =>
      s.(written := s.written + [s.slots[s.consumer.tail]], consumer := Written(s.consumer.tail))
    case AdvanceTail =>
      s.(tail := if s.consumer.tail + 1 == RING then 0 else s.consumer.tail + 1,
         taken := s.taken + 1, consumer := Outside)
  }

  /** The records whose push was accepted, in order. */
  function Accepted<R>(offered: seq<(R, bool)>): (a: seq<R>) {
    if offered == [] then []
    else
      var (rec, kept) := offered[|offered| - 1];
      Accepted(offered[..|offered| - 1]) + if kept then [rec] else []
  }

  function Drops<R>(offered: seq<(R, bool)>): nat {
    if offered == [] then 0
    else Drops(offered[..|offered| - 1]) + if offered[|offered| - 1].1 then 0 else 1
  }

  lemma AcceptedGrows<R>(offered: seq<(R, bool)>, rec: R, kept: bool)
    ensures Accepted(offered + [(rec, kept)]) == Accepted(offered) + if kept then [rec] else []
    ensures Drops(offered + [(rec, kept)]) == Drops(offered) + if kept then 0 else 1
  {
    assert (offered + [(rec, kept)])[..|offered|] == offered;
  }

  /** The abstract FIFO the ring stands for: accepted records whose slot has not been given back. */
  ghost function Fifo<R>(s: State<R>): seq<R>
    requires s.taken <= |Accepted(s.offered)|
  {
    Accepted(s.offered)[s.taken..]
  }

  // ---- the invariant ----

  ghost predicate IndexInv<R>(s: State<R>, count: nat) {
    && |s.slots| == RING
    && s.head == count % RING && s.tail == s.taken % RING
    && s.taken <= count <= s.taken + (RING - 1)
  }

  ghost predicate ProducerInv<R>(s: State<R>, count: nat) {
    match s.producer
    case Between => true
    case HeadRead(_, h) => h == s.head
    case Filling(_, h, next) => h == s.head && next == (count + 1) % RING && count < s.taken + (RING - 1)
    case Filled(rec, next) =>
      next == (count + 1) % RING && count < s.taken + (RING - 1) && s.head < |s.slots| && s.slots[s.head] == rec
  }

  ghost predicate ConsumerInv<R>(s: State<R>, count: nat) {
    match s.consumer
    case Outside => |s.written| == s.taken
    case TailRead(t) => t == s.tail && |s.written| == s.taken
    case Reading(t) => t == s.tail && |s.written| == s.taken < count
    case Written(t) => t == s.tail && s.taken < count && |s.written| == s.taken + 1
  }

  ghost predicate SlotsInv<R>(s: State<R>, accepted: seq<R>)
    requires |s.slots| == RING
  {
    forall k: nat | s.taken <= k < |accepted| :: s.slots[k % RING] == accepted[k]
  }

  ghost predicate Inv<R>(s: State<R>) {
    var accepted := Accepted(s.offered);
    && IndexInv(s, |accepted|) && ProducerInv(s, |accepted|) && ConsumerInv(s, |accepted|)
    && SlotsInv(s, accepted)
    && s.written <= accepted
    && s.dropped == Drops(s.offered)
  }

  ghost predicate Init<R>(s: State<R>) {
    && |s.slots| == RING && s.head == s.tail == s.taken == s.dropped == 0
    && s.producer.Between? && s.consumer.Outside? && s.offered == [] && s.written == []
  }

  lemma InitInv<R>(s: State<R>)
    requires Init(s)
    ensures Inv(s)
  {
  }

  /** Distinct absolute positions less than a ring apart lie in different slots. */
  lemma DifferentSlots(i: nat, j: nat)
    requires i < j < i + RING
    ensures i % RING != j % RING
  {
  }

  /** The slot being filled is none of those that hold a queued record. */
  lemma FillIsOutsideQueue<R>(s: State<R>)
    requires Inv(s) && s.producer.Filling?
    ensures forall k: nat | s.taken <= k < |Accepted(s.offered)| :: k % RING != s.producer.head
  {
    forall k: nat | s.taken <= k < |Accepted(s.offered)|
      ensures k % RING != s.producer.head
    {
      DifferentSlots(k, |Accepted(s.offered)|);
    }
  }

  /** The index comparison of sitlBurstPush() detects exactly the full ring. */
  lemma FullTest(count: nat, taken: nat)
    requires taken <= count <= taken + (4095)
    ensures (if count % 4096 + 1 == 4096 then 0 else count % 4096 + 1) == (count + 1) % 4096
    ensures (count + 1) % 4096 == taken % 4096 <==> count - taken == 4095
  {
  }

  lemma CheckTailStep<R>(s: State<R>)
    requires Inv(s) && Enabled(s, CheckTail)
    ensures Inv(Apply(s, CheckTail))
    ensures Apply(s, CheckTail).producer.Between? <==> |Accepted(s.offered)| - s.taken == RING - 1
    ensures Apply(s, CheckTail).dropped == s.dropped + 1 <==> |Accepted(s.offered)| - s.taken == RING - 1
    ensures Accepted(Apply(s, CheckTail).offered) == Accepted(s.offered)
  {
    AcceptedGrows(s.offered, s.producer.rec, false);
    FullTest(|Accepted(s.offered)|, s.taken);
    hide Accepted, Drops;
  }

  lemma SlotStep<R>(s: State<R>, step: Step<R>)
    requires Inv(s) && Enabled(s, step) && (step.TearSlot? || step.FillSlot?)
    ensures Inv(Apply(s, step))
  {
    FillIsOutsideQueue(s);
    hide Accepted, Drops;
  }

  lemma PublishStep<R>(s: State<R>)
    requires Inv(s) && Enabled(s, PublishHead)
    ensures Inv(Apply(s, PublishHead))
  {
    AcceptedGrows(s.offered, s.producer.rec, true);
  }

  lemma ConsumerStep<R>(s: State<R>, step: Step<R>)
    requires Inv(s) && Enabled(s, step)
    requires step.ReadTail? || step.CompareHead? || step.WriteRecord? || step.AdvanceTail?
    ensures Inv(Apply(s, step))
  {
    var accepted := Accepted(s.offered);
    if step.WriteRecord? {
      assert s.slots[s.taken % RING] == accepted[s.taken];
      assert s.written == accepted[..s.taken];
    }
  }

  lemma StepKeepsInv<R>(s: State<R>, step: Step<R>)
    requires Inv(s) && Enabled(s, step)
    ensures Inv(Apply(s, step))
  {
    hide *;
    match step
    case PublishHead => PublishStep(s);
    case ReadTail => ConsumerStep(s, step);
    case CompareHead => ConsumerStep(s, step);
    case WriteRecord => ConsumerStep(s, step);
    case AdvanceTail => ConsumerStep(s, step);
    case CheckTail => CheckTailStep(s);
    case TearSlot(_) => SlotStep(s, step);
    case FillSlot => SlotStep(s, step);
    case ReadHead(_) => ReadHeadStep(s, step);
  }

  lemma ReadHeadStep<R>(s: State<R>, step: Step<R>)
    requires Inv(s) && Enabled(s, step) && step.ReadHead?
    ensures Inv(Apply(s, step))
  {
  }

  // ---- refinement of a bounded FIFO ----

  /**
   Each step is one step of a FIFO of capacity 4095: publishing the head enqueues the
   record pushed, advancing the tail dequeues, a push is refused only when the FIFO is
   full, and no other step changes it.
   */
  lemma StepRefinesFifo<R>(s: State<R>, step: Step<R>)
    requires Inv(s) && Enabled(s, step)
    ensures Inv(Apply(s, step))
    ensures |Fifo(s)| <= 4095
    ensures var t := Apply(s, step);
      match step
      case PublishHead => |Fifo(s)| < 4095 && Fifo(t) == Fifo(s) + [s.producer.rec] && t.dropped == s.dropped
      case CheckTail =>
        && Fifo(t) == Fifo(s)
        && (t.dropped == s.dropped + 1 <==> |Fifo(s)| == 4095)
        && (t.producer.Between? <==> |Fifo(s)| == 4095)
      case AdvanceTail => Fifo(s) != [] && Fifo(t) == Fifo(s)[1..] && t.dropped == s.dropped
      case _ => Fifo(t) == Fifo(s) && t.dropped == s.dropped
  {
    StepKeepsInv(s, step);
    match step
    case PublishHead => AcceptedGrows(s.offered, s.producer.rec, true);
    case CheckTail => CheckTailStep(s);
    case AdvanceTail => hide Accepted, Drops;
    case _ => hide Accepted, Drops, Inv; assert Apply(s, step).offered == s.offered && Apply(s, step).taken == s.taken;
  }

  /** While the MSP thread reads a slot, no step of the other thread changes it. */
  lemma SlotBeingReadIsStable<R>(s: State<R>, step: Step<R>)
    requires Inv(s) && Enabled(s, step) && s.consumer.Reading?
    requires step.ReadHead? || step.CheckTail? || step.TearSlot? || step.FillSlot? || step.PublishHead?
    ensures s.consumer.tail < RING && Apply(s, step).slots[s.consumer.tail] == s.slots[s.consumer.tail]
    ensures Apply(s, step).consumer == s.consumer
  {
    if s.producer.Filling? {
      FillIsOutsideQueue(s);
      assert s.taken % RING == s.consumer.tail;
    }
  }

  // ---- whole runs ----

  ghost predicate IsRun<R>(states: seq<State<R>>, steps: seq<Step<R>>) {
    && |states| == |steps| + 1
    && Init(states[0])
    && (forall i | 0 <= i < |steps| :: Enabled(states[i], steps[i]) && states[i + 1] == Apply(states[i], steps[i]))
  }

  lemma {:induction false} RunKeepsInv<R>(states: seq<State<R>>, steps: seq<Step<R>>, i: nat)
    requires IsRun(states, steps) && i <= |steps|
    ensures Inv(states[i])
  {
    hide Inv, Init, Enabled, Apply;
    if i == 0 {
      InitInv(states[0]);
    } else {
      RunKeepsInv(states, steps, i - 1);
      assert states[i] == Apply(states[i - 1], steps[i - 1]);
      StepKeepsInv(states[i - 1], steps[i - 1]);
    }
  }

  /**
   In every state of every interleaving: what has been written to the file is, in order and
   without gap or damage, the first accepted records; what is still queued is the rest; and
   the drop counter is the number of refused pushes.
   */
  lemma RunsDeliverInOrder<R>(states: seq<State<R>>, steps: seq<Step<R>>, i: nat)
    requires IsRun(states, steps) && i <= |steps|
    ensures var s := states[i];
      && s.written <= Accepted(s.offered)
      && s.dropped == Drops(s.offered)
      && s.taken <= |s.written| <= s.taken + 1
      && s.taken <= |Accepted(s.offered)|
      && (s.consumer.Outside? ==> s.written + Fifo(s) == Accepted(s.offered))
  {
    RunKeepsInv(states, steps, i);
    hide IsRun;
    var s := states[i];
    assert s.written == Accepted(s.offered)[..|s.written|];
  }
}
