/**
 The clock driven by the timestamps of flight-dynamics packets. The receive thread turns
 each packet into whole microseconds with a carried fraction, and publishes them only
 after the packet's sensors are written; the run loop consumes them in 100 us quanta.
 Timestamps are real numbers of seconds (floating-point rounding is not modelled).
 */
module FdmClock {
  import opened Common
  import opened VirtualClock

  const STEP_US: nat := 100
  const MAX_DELTA_US := 5000000.0
  const US_PER_S := 1000000.0

  /** Where the receive thread is: one packet is received, its sensors written, its time published. */
  datatype Receiver = Waiting | Received | SensorsWritten | Carrying(us: nat)

  datatype State = State(
    lastTs: real,
    remainder: real,
    commit: nat,            // whole us of the packet whose sensors are not written yet
    published: nat,         // us the run loop may take
    local: nat,             // us the run loop has taken and not consumed
    clock: nat,
    passes: seq<nat>,       // when the scheduler ran
    receiver: Receiver,
    // history
    accepted: real,         // timestamp differences accepted, in us
    discarded: real,        // us dropped at a resync or overwritten before being published
    sensorTs: real,         // timestamp of the last packet whose sensors are written
    sensorAccepted: real)   // what had been accepted when they were written

  // ---- the receive thread ----

  /** What udpRecv() decides about a timestamp. */
  predicate InRange(s: State, ts: real) {
    s.lastTs >= 0.0 && ts > s.lastTs
    && 0.0 < (ts - s.lastTs) * US_PER_S + s.remainder <= MAX_DELTA_US
  }

  predicate Resync(s: State, ts: real) {
    (s.lastTs >= 0.0 && ts > s.lastTs && !InRange(s, ts)) || ts < s.lastTs
  }

  function Receive(s: State, ts: real): State
    requires s.remainder >= 0.0
  {
    if InRange(s, ts) then
      var deltaUs := (ts - s.lastTs) * US_PER_S + s.remainder;
      s.(lastTs := ts, commit := deltaUs.Floor, remainder := deltaUs - deltaUs.Floor as real, receiver := Received,
         accepted := s.accepted + (ts - s.lastTs) * US_PER_S,
         discarded := s.discarded + s.commit as real)
    else if Resync(s, ts) then
      s.(lastTs := ts, commit := 0, remainder := 0.0, receiver := Received,
         discarded := s.discarded + s.remainder + s.commit as real)
    else s.(lastTs := ts, receiver := Received)
  }

  function WriteSensors(s: State): State {
    s.(receiver := SensorsWritten, sensorTs := s.lastTs, sensorAccepted := s.accepted)
  }

  function CommitTake(s: State): State {
    s.(commit := 0, receiver := Carrying(s.commit))
  }

  function CommitPublish(s: State): State
    requires s.receiver.Carrying?
  {
    s.(published := s.published + s.receiver.us, receiver := Waiting)
  }

  // ---- the run loop ----

  function Take(s: State): State {
    s.(local := s.local + s.published, published := 0)
  }

  function Tick(s: State): State
    requires s.local >= STEP_US
  {
    s.(clock := s.clock + STEP_US, local := s.local - STEP_US, passes := s.passes + [s.clock + STEP_US])
  }

  /** The inner loop of run(): all whole quanta at once. */
  function Drained(s: State): State {
    s.(clock := s.clock + s.local / STEP_US * STEP_US, local := s.local % STEP_US,
       passes := s.passes + Ticks(s.clock, STEP_US, s.local / STEP_US))
  }

  // ---- the code: static variables changed by the two threads ----

  class UdpClock {
    var lastTs: real
    var remainderUs: real
    var commitUs: nat
    var pendingUs: nat
    var loopUs: nat
    var clock: nat
    var passes: seq<nat>
    ghost var receiver: Receiver
    ghost var accepted: real
    ghost var discarded: real
    ghost var sensorTs: real
    ghost var sensorAccepted: real

    constructor (start: nat)
      ensures View() == Initial(start)
    {
      lastTs, remainderUs, commitUs, pendingUs, loopUs, clock, passes := -1.0, 0.0, 0, 0, 0, start, [];
      receiver, accepted, discarded, sensorTs, sensorAccepted := Waiting, 0.0, 0.0, -1.0, 0.0;
    }

    ghost function View(): State
      reads this
    {
      State(lastTs, remainderUs, commitUs, pendingUs, loopUs, clock, passes, receiver,
            accepted, discarded, sensorTs, sensorAccepted)
    }

    /** The timestamp part of udpRecv(). */
    method UdpRecv(ts: real)
      requires remainderUs >= 0.0
      modifies this`lastTs, this`remainderUs, this`commitUs, this`receiver, this`accepted, this`discarded
      ensures View() == Receive(old(View()), ts)
    {
      if lastTs >= 0.0 && ts > lastTs {
        var deltaUs := (ts - lastTs) * US_PER_S + remainderUs;
        if deltaUs > 0.0 && deltaUs <= MAX_DELTA_US {
          var wholeUs := deltaUs.Floor;
          accepted, discarded := accepted + (ts - lastTs) * US_PER_S, discarded + commitUs as real;
          remainderUs := deltaUs - wholeUs as real;
          commitUs := wholeUs;
        } else {
          discarded := discarded + remainderUs + commitUs as real;
          remainderUs := 0.0;
          commitUs := 0;
        }
      } else if ts < lastTs {
        discarded := discarded + remainderUs + commitUs as real;
        remainderUs := 0.0;
        commitUs := 0;
      }
      lastTs := ts;
      receiver := Received;
    }

    /** sitlUdpFdmCommitPending(), reached at the end of the sensor update. */
    method CommitPending()
      modifies this`commitUs, this`pendingUs, this`receiver
      ensures View() == CommitPublish(CommitTake(old(View())))
    {
      var us := commitUs;
      commitUs := 0;
      receiver := Carrying(us);
      if us > 0 {
        pendingUs := pendingUs + us;
      }
      receiver := Waiting;
    }

    /** sitlUdpFdmTakePendingUs(), added to the loop's own counter. */
    method TakePending()
      modifies this`pendingUs, this`loopUs
      ensures View() == Take(old(View()))
    {
      var us := pendingUs;
      pendingUs := 0;
      loopUs := loopUs + us;
    }

    /** The quantum loop of run(). */
    method ConsumeQuanta()
      modifies this`loopUs, this`clock, this`passes
      ensures View() == Drained(old(View()))
    {
      ghost var n: nat := 0;
      while loopUs >= STEP_US
        invariant old(loopUs) == n * STEP_US + loopUs
        invariant clock == old(clock) + n * STEP_US
        invariant passes == old(passes) + Ticks(old(clock), STEP_US, n)
      {
        clock := clock + STEP_US;
        loopUs := loopUs - STEP_US;
        passes := passes + [clock];
        n := n + 1;
      }
    }
  }

  function Initial(start: nat): State {
    State(-1.0, 0.0, 0, 0, 0, start, [], Waiting, 0.0, 0.0, -1.0, 0.0)
  }

  /** The loop of run() is as many single ticks as fit. */
  lemma {:induction false} DrainedIsTicks(s: State)
    ensures s.local < STEP_US ==> Drained(s) == s
    ensures s.local >= STEP_US ==> Drained(s) == Drained(Tick(s))
    decreases s.local
  {
    if s.local < STEP_US {
      assert Ticks(s.clock, STEP_US, 0) == [];
    } else {
      var n := s.local / STEP_US;
      assert (s.local - STEP_US) / STEP_US == n - 1;
      TicksJoin(s.clock, STEP_US, 1, n - 1);
      assert Ticks(s.clock, STEP_US, 1) == [s.clock + STEP_US] by {
        assert Ticks(s.clock, STEP_US, 0) == [];
      }
      assert Drained(Tick(s)).passes
          == s.passes + (Ticks(s.clock, STEP_US, 1) + Ticks(s.clock + STEP_US, STEP_US, n - 1));
    }
  }

  // ---- which packets are accepted ----

  /** A difference of at most 5 s, the fraction carried so far included, is accepted in full. */
  lemma ShortGapIsAccepted(s: State, ts: real)
    requires s.remainder >= 0.0 && s.lastTs >= 0.0 && ts > s.lastTs
    requires (ts - s.lastTs) * 1000000.0 + s.remainder <= 5000000.0
    ensures var t := Receive(s, ts);
      && t.lastTs == ts && 0.0 <= t.remainder < 1.0
      && t.commit as real + t.remainder == (ts - s.lastTs) * 1000000.0 + s.remainder
      && t.accepted == s.accepted + (ts - s.lastTs) * 1000000.0
  {
  }

  /** A longer one, and a timestamp that goes back, is dropped with the fraction and the uncommitted time. */
  lemma OtherGapIsDropped(s: State, ts: real)
    requires s.remainder >= 0.0
    requires ts < s.lastTs || (s.lastTs >= 0.0 && (ts - s.lastTs) * 1000000.0 + s.remainder > 5000000.0 && ts > s.lastTs)
    ensures var t := Receive(s, ts);
      t.lastTs == ts && t.remainder == 0.0 && t.commit == 0 && t.accepted == s.accepted
  {
  }

  /** The first timestamp, and one that repeats, only sets the point the next difference is taken from. */
  lemma FirstOrSameTimeAddsNothing(s: State, ts: real)
    requires s.remainder >= 0.0 && (ts == s.lastTs || (s.lastTs < 0.0 && ts > s.lastTs))
    ensures var t := Receive(s, ts);
      t.lastTs == ts && t.remainder == s.remainder && t.commit == s.commit && t.accepted == s.accepted
  {
  }

  // ---- interleavings ----

  /** Each step is one atomic access of one of the two threads. */
  datatype Step =
    | ReceivePacket(ts: real)
    | UpdateSensors
    | SkipUpdate              // the sensor update returned early, nothing is committed
    | ExchangeCommit
    | AddPending
    | TakePendingUs
    | ConsumeQuantum

  predicate Enabled(s: State, step: Step) {
    match step
    case ReceivePacket(_) => s.receiver.Waiting? && s.remainder >= 0.0
    case UpdateSensors => s.receiver.Received?
    case SkipUpdate => s.receiver.Received?
    case ExchangeCommit => s.receiver.SensorsWritten?
    case AddPending => s.receiver.Carrying?
    case TakePendingUs => s.local < STEP_US
    case ConsumeQuantum => s.local >= STEP_US
  }

  function Apply(s: State, step: Step): State
    requires Enabled(s, step)
  {
    match step
    case ReceivePacket(ts) => Receive(s, ts)
    case UpdateSensors => WriteSensors(s)
    case SkipUpdate => s.(receiver := Waiting)
    case ExchangeCommit => CommitTake(s)
    case AddPending => CommitPublish(s)
    case TakePendingUs => Take(s)
    case ConsumeQuantum => Tick(s)
  }

  function Carried(s: State): nat {
    if s.receiver.Carrying? then s.receiver.us else 0
  }

  /** Microseconds that have left the receive thread's hands, consumed or not. */
  function Released(s: State, start: nat): int {
    s.clock - start + s.local + s.published + Carried(s)
  }

  /** Time is conserved: everything accepted is somewhere, or was discarded. */
  ghost predicate Conserved(s: State, start: nat) {
    && 0.0 <= s.remainder < 1.0
    && (Released(s, start) + s.commit) as real + s.remainder == s.accepted - s.discarded
  }

  /** The clock has moved in quanta, with one scheduler pass at each. */
  ghost predicate OnGrid(s: State, start: nat) {
    && s.clock >= start && (s.clock - start) % STEP_US == 0
    && s.passes == Ticks(start, STEP_US, (s.clock - start) / STEP_US)
  }

  lemma ReceiveConserves(s: State, ts: real, start: nat)
    requires Conserved(s, start) && s.receiver.Waiting?
    ensures Conserved(Receive(s, ts), start)
  {
  }

  lemma TickStaysOnGrid(s: State, start: nat)
    requires OnGrid(s, start) && s.local >= STEP_US
    ensures OnGrid(Tick(s), start)
  {
  }

  lemma StepConserves(s: State, step: Step, start: nat)
    requires Conserved(s, start) && OnGrid(s, start) && Enabled(s, step)
    ensures Conserved(Apply(s, step), start) && OnGrid(Apply(s, step), start)
  {
    match step
    case ReceivePacket(ts) => ReceiveConserves(s, ts, start);
    case ConsumeQuantum => TickStaysOnGrid(s, start);
    case _ =>
  }

  ghost predicate IsRun(states: seq<State>, steps: seq<Step>, start: nat) {
    && |states| == |steps| + 1
    && states[0] == Initial(start)
    && (forall i | 0 <= i < |steps| :: Enabled(states[i], steps[i]) && states[i + 1] == Apply(states[i], steps[i]))
  }

  /** Over every interleaving, with any packets at all. */
  lemma {:induction false} RunConserves(states: seq<State>, steps: seq<Step>, start: nat, i: nat)
    requires IsRun(states, steps, start) && i <= |steps|
    ensures Conserved(states[i], start) && OnGrid(states[i], start)
  {
    if i == 0 {
      assert Ticks(start, STEP_US, 0) == [];
    } else {
      RunConserves(states, steps, start, i - 1);
      hide Conserved, OnGrid, Enabled, Apply;
      assert states[i] == Apply(states[i - 1], steps[i - 1]);
      StepConserves(states[i - 1], steps[i - 1], start);
    }
  }

  // ---- causality ----

  /** Nothing is released that had not been accepted when sensors were last written. */
  ghost predicate Causal(s: State, start: nat) {
    && s.discarded >= 0.0
    && Released(s, start) as real <= s.sensorAccepted <= s.accepted
    && (s.receiver.SensorsWritten? ==> s.sensorAccepted == s.accepted)
  }

  lemma StepKeepsCausal(s: State, step: Step, start: nat)
    requires Conserved(s, start) && Causal(s, start) && Enabled(s, step)
    ensures Causal(Apply(s, step), start)
  {
  }

  lemma {:induction false} RunIsCausal(states: seq<State>, steps: seq<Step>, start: nat, i: nat)
    requires IsRun(states, steps, start) && i <= |steps|
    ensures Causal(states[i], start)
  {
    if i > 0 {
      RunIsCausal(states, steps, start, i - 1);
      RunConserves(states, steps, start, i - 1);
      hide Causal, Conserved, OnGrid, Enabled, Apply;
      assert states[i] == Apply(states[i - 1], steps[i - 1]);
      StepKeepsCausal(states[i - 1], steps[i - 1], start);
    }
  }

  /**
   Causality for any packets at all, updates that return early and resyncs included: at every
   point of every interleaving the clock has advanced by no more than the time accepted up to
   the last packet whose sensors are written.
   */
  lemma ClockNeverPassesAccepted(states: seq<State>, steps: seq<Step>, start: nat, i: nat)
    requires IsRun(states, steps, start) && i <= |steps|
    ensures states[i].clock >= start
    ensures (states[i].clock - start) as real <= states[i].sensorAccepted <= states[i].accepted
  {
    RunIsCausal(states, steps, start, i);
    RunConserves(states, steps, start, i);
    hide IsRun;
  }

  /** Simulator time since the first packet, in us. */
  function Elapsed(first: real, ts: real): real {
    (ts - first) * 1000000.0
  }

  /** Timestamps that start at `first`, which is not negative, and do not go back. */
  predicate Forward(s: State, step: Step, first: real) {
    step.ReceivePacket? ==> if s.lastTs < 0.0 then step.ts == first >= 0.0 else step.ts >= s.lastTs
  }

  ghost predicate ForwardInv(s: State, first: real) {
    && first >= 0.0
    && (s.sensorTs < 0.0 ==> s.sensorAccepted == 0.0)
    && (s.sensorTs >= 0.0 ==> s.sensorAccepted <= Elapsed(first, s.sensorTs))
    && if s.lastTs < 0.0 then s.lastTs == s.sensorTs == -1.0 && s.accepted == 0.0 && s.receiver.Waiting?
       else s.accepted <= Elapsed(first, s.lastTs)
  }

  lemma ForwardStep(s: State, step: Step, first: real)
    requires ForwardInv(s, first) && Enabled(s, step) && Forward(s, step, first)
    ensures ForwardInv(Apply(s, step), first)
  {
    if step.ReceivePacket? && s.lastTs >= 0.0 {
      assert Elapsed(first, step.ts) == Elapsed(first, s.lastTs) + (step.ts - s.lastTs) * US_PER_S;
    }
  }

  ghost predicate IsForwardRun(states: seq<State>, steps: seq<Step>, start: nat, first: real) {
    && IsRun(states, steps, start)
    && first >= 0.0
    && forall i | 0 <= i < |steps| :: Forward(states[i], steps[i], first)
  }

  lemma {:induction false} ForwardRunKeepsInv(states: seq<State>, steps: seq<Step>, start: nat, first: real, i: nat)
    requires IsForwardRun(states, steps, start, first) && i <= |steps|
    ensures ForwardInv(states[i], first)
  {
    if i > 0 {
      ForwardRunKeepsInv(states, steps, start, first, i - 1);
      hide ForwardInv, Enabled, Apply, Forward;
      assert states[i] == Apply(states[i - 1], steps[i - 1]);
      ForwardStep(states[i - 1], steps[i - 1], first);
    }
  }

  /**
   When timestamps do not go back: the virtual clock is at or before the simulator time of the
   last packet whose sensors are written, and does not move before the first such packet,
   whichever updates return early and whichever gaps are too long to be accepted.
   */
  lemma ClockNeverPassesSensors(states: seq<State>, steps: seq<Step>, start: nat, first: real, i: nat)
    requires IsForwardRun(states, steps, start, first) && i <= |steps|
    ensures states[i].clock >= start
    ensures states[i].sensorTs >= 0.0 ==> (states[i].clock - start) as real <= Elapsed(first, states[i].sensorTs)
    ensures states[i].sensorTs < 0.0 ==> states[i].clock == start
  {
    ClockNeverPassesAccepted(states, steps, start, i);
    ForwardRunKeepsInv(states, steps, start, first, i);
    hide IsForwardRun;
  }

  // ---- streams without long gaps ----

  /** Timestamps do not go back and no gap is longer than 4.999999 s; updates may return early. */
  predicate Flows(s: State, step: Step, first: real) {
    step.ReceivePacket? ==>
      if s.lastTs < 0.0 then step.ts == first >= 0.0 else s.lastTs <= step.ts <= s.lastTs + 4.999999
  }

  ghost predicate IsFlowingRun(states: seq<State>, steps: seq<Step>, start: nat, first: real) {
    && IsRun(states, steps, start)
    && forall i | 0 <= i < |steps| :: Flows(states[i], steps[i], first)
  }

  /** A later packet arrives while the time of an earlier one is still uncommitted: that time is overwritten. */
  predicate Overwrites(s: State, step: Step) {
    step.ReceivePacket? && s.lastTs >= 0.0 && step.ts > s.lastTs && s.commit > 0
  }

  /** The time overwritten in the first n steps. */
  function Lost(states: seq<State>, steps: seq<Step>, n: nat): nat
    requires n <= |steps| && |states| == |steps| + 1
  {
    if n == 0 then 0
    else Lost(states, steps, n - 1) + if Overwrites(states[n - 1], steps[n - 1]) then states[n - 1].commit else 0
  }

  ghost predicate FlowInv(s: State, first: real, lost: nat) {
    && s.discarded == lost as real
    && if s.lastTs < 0.0 then s.lastTs == -1.0 && s.accepted == 0.0 && s.remainder == 0.0 && s.commit == 0
       else first <= s.lastTs && s.accepted == Elapsed(first, s.lastTs)
  }

  lemma FlowStep(s: State, step: Step, first: real, lost: nat)
    requires FlowInv(s, first, lost) && Enabled(s, step) && Flows(s, step, first) && 0.0 <= s.remainder < 1.0
    ensures FlowInv(Apply(s, step), first, lost + if Overwrites(s, step) then s.commit else 0)
  {
    if step.ReceivePacket? && s.lastTs >= 0.0 && step.ts > s.lastTs {
      assert InRange(s, step.ts);
      assert Elapsed(first, step.ts) == Elapsed(first, s.lastTs) + (step.ts - s.lastTs) * US_PER_S;
    }
  }

  lemma {:induction false} FlowingRunKeepsInv(states: seq<State>, steps: seq<Step>, start: nat, first: real, i: nat)
    requires IsFlowingRun(states, steps, start, first) && i <= |steps|
    ensures FlowInv(states[i], first, Lost(states, steps, i))
  {
    if i > 0 {
      FlowingRunKeepsInv(states, steps, start, first, i - 1);
      RunConserves(states, steps, start, i - 1);
      hide FlowInv, Enabled, Apply, Flows, Overwrites;
      assert states[i] == Apply(states[i - 1], steps[i - 1]);
      FlowStep(states[i - 1], steps[i - 1], first, Lost(states, steps, i - 1));
    }
  }

  /** Nothing is in flight: the run loop is about to idle. */
  predicate Quiet(s: State) {
    s.receiver.Waiting? && s.published == 0 && s.local < STEP_US
  }

  /** The time the run loop has been given, consumed or not. */
  function Given(s: State, start: nat): int {
    s.clock - start + s.local
  }

  lemma FloorOfSum(n: int, fraction: real)
    requires 0.0 <= fraction < 1.0
    ensures (n as real + fraction).Floor == n
  {
  }

  /**
   The timestamps telescope, however the time was cut into packets: when nothing is in flight,
   the run loop has been given the whole microseconds between the first and the last timestamp,
   less what was overwritten and what is still uncommitted, and the clock has advanced by the
   whole quanta of that.
   */
  lemma QuietClockTelescopes(states: seq<State>, steps: seq<Step>, start: nat, first: real, i: nat)
    requires IsFlowingRun(states, steps, start, first) && i <= |steps|
    requires Quiet(states[i]) && states[i].lastTs >= 0.0
    ensures var s, whole := states[i], Elapsed(first, states[i].lastTs).Floor;
            var given := whole - Lost(states, steps, i) - s.commit;
            Given(s, start) == given >= 0 && s.clock == start + given / 100 * 100
  {
    FlowingRunKeepsInv(states, steps, start, first, i);
    RunConserves(states, steps, start, i);
    hide IsFlowingRun, Lost, Elapsed, FlowInv, Conserved, OnGrid;
    GivenIsElapsed(states[i], start, first, Lost(states, steps, i));
    ClockIsWholeQuanta(states[i], start);
  }

  lemma GivenIsElapsed(s: State, start: nat, first: real, lost: nat)
    requires FlowInv(s, first, lost) && Conserved(s, start) && Quiet(s) && s.lastTs >= 0.0
    ensures Given(s, start) == Elapsed(first, s.lastTs).Floor - lost - s.commit
  {
    var sum := Given(s, start) + s.commit + lost;
    assert sum as real + s.remainder == Elapsed(first, s.lastTs);
    FloorOfSum(sum, s.remainder);
  }

  lemma ClockIsWholeQuanta(s: State, start: nat)
    requires OnGrid(s, start) && s.local < STEP_US
    ensures Given(s, start) >= 0 && s.clock == start + Given(s, start) / 100 * 100
  {
    hide Ticks;
    var n := (s.clock - start) / 100;
    assert s.clock - start == n * 100;
    DivModIs(Given(s, start), n, 100, s.local);
  }

  lemma {:induction false} NothingLostIff(states: seq<State>, steps: seq<Step>, n: nat)
    requires n <= |steps| && |states| == |steps| + 1
    ensures Lost(states, steps, n) == 0 <==> forall k | 0 <= k < n :: !Overwrites(states[k], steps[k])
  {
    if n > 0 {
      NothingLostIff(states, steps, n - 1);
    }
  }

  /**
   Nothing is missing if and only if no later packet ever arrived over uncommitted time and
   none is uncommitted now. An update that returns early leaves its time uncommitted, and the
   next packet erases it.
   */
  lemma NothingIsMissingIff(states: seq<State>, steps: seq<Step>, start: nat, first: real, i: nat)
    requires IsFlowingRun(states, steps, start, first) && i <= |steps|
    requires Quiet(states[i]) && states[i].lastTs >= 0.0
    ensures Given(states[i], start) == Elapsed(first, states[i].lastTs).Floor
       <==> states[i].commit == 0 && forall k | 0 <= k < i :: !Overwrites(states[k], steps[k])
  {
    QuietClockTelescopes(states, steps, start, first, i);
    NothingLostIff(states, steps, i);
    hide IsFlowingRun, Lost, Elapsed, Overwrites;
  }

  ghost predicate NothingStashed(s: State) {
    s.receiver.Waiting? || s.receiver.Carrying? ==> s.commit == 0
  }

  /** When every update is completed nothing is missing. */
  lemma {:induction false} CompletedUpdatesLoseNothing(states: seq<State>, steps: seq<Step>, start: nat, i: nat)
    requires IsRun(states, steps, start) && i <= |steps| && forall k | 0 <= k < i :: !steps[k].SkipUpdate?
    ensures NothingStashed(states[i])
    ensures forall k | 0 <= k < i :: !Overwrites(states[k], steps[k])
  {
    if i > 0 {
      CompletedUpdatesLoseNothing(states, steps, start, i - 1);
      assert states[i] == Apply(states[i - 1], steps[i - 1]);
    }
  }

  /** Three packets 50 us apart; the update of the second returns early. */
  function SkipSteps(): seq<Step> {
    [ReceivePacket(0.0), UpdateSensors, ExchangeCommit, AddPending,
     ReceivePacket(0.00005), SkipUpdate,
     ReceivePacket(0.0001), UpdateSensors, ExchangeCommit, AddPending, TakePendingUs]
  }

  lemma FirstPacket(s: State)
    requires s.lastTs == -1.0 && s.remainder == 0.0
    ensures Receive(s, 0.0) == s.(lastTs := 0.0, receiver := Received)
  {
  }

  lemma PacketAfter50Us(s: State, ts: real)
    requires s.lastTs >= 0.0 && s.remainder == 0.0 && ts == s.lastTs + 0.00005
    ensures Receive(s, ts) == s.(
              lastTs := ts, commit := 50, remainder := 0.0, receiver := Received,
              accepted := s.accepted + 50.0, discarded := s.discarded + s.commit as real)
  {
    assert (ts - s.lastTs) * US_PER_S == 50.0;
  }

  /** 100 us have passed in the simulator, all sensors of the last packet are written, and the clock has not moved. */
  lemma SkippedUpdateLosesTime() returns (states: seq<State>)
    ensures IsFlowingRun(states, SkipSteps(), 0, 0.0)
    ensures Quiet(states[11]) && states[11].sensorTs == states[11].lastTs
    ensures Elapsed(0.0, states[11].lastTs).Floor == 100
    ensures states[11].clock == 0 && states[11].local == 50
  {
    hide Receive, InRange, Resync;
    var s0 := Initial(0);
    FirstPacket(s0);
    var s1 := Apply(s0, ReceivePacket(0.0));
    var s2 := Apply(s1, UpdateSensors);
    var s3 := Apply(s2, ExchangeCommit);
    var s4 := Apply(s3, AddPending);
    PacketAfter50Us(s4, 0.00005);
    var s5 := Apply(s4, ReceivePacket(0.00005));
    var s6 := Apply(s5, SkipUpdate);
    PacketAfter50Us(s6, 0.0001);
    var s7 := Apply(s6, ReceivePacket(0.0001));
    var s8 := Apply(s7, UpdateSensors);
    var s9 := Apply(s8, ExchangeCommit);
    var s10 := Apply(s9, AddPending);
    var s11 := Apply(s10, TakePendingUs);
    states := [s0, s1, s2, s3, s4, s5, s6, s7, s8, s9, s10, s11];
  }
}
