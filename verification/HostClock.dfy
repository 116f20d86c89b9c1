/**
 The clock the host steps: a step near the gyro grid is snapped onto it, then the time is
 consumed in quanta that divide the grid, and what is left over is carried to the next
 step. Times are microseconds; the per-step values are 32-bit unsigned in the source.
 */
module HostClock {
  import opened Common
  import opened VirtualClock

  const U32 := 0x1_0000_0000

  // ---- the quantum ----

  const CANDIDATES: seq<nat> := [100, 50, 25, 12, 6, 3, 1]

  /** The halving loop of localStepQuantumUs(), from a given start. */
  function QuantumFrom(quantum: nat, gridUs: nat): (q: nat)
    requires quantum >= 1
    ensures 1 <= q <= quantum
  {
    if gridUs > 0 && quantum > 1 && gridUs % quantum != 0 then QuantumFrom(quantum / 2, gridUs) else quantum
  }

  function Quantum(gridUs: nat): (q: nat)
    ensures 1 <= q <= 100
  {
    QuantumFrom(100, gridUs)
  }

  /** localStepQuantumUs() */
  method StepQuantum(gridUs: nat) returns (quantumUs: nat)
    ensures quantumUs == Quantum(gridUs)
  {
    quantumUs := 100;
    while gridUs > 0 && quantumUs > 1 && gridUs % quantumUs != 0
      invariant quantumUs >= 1 && QuantumFrom(quantumUs, gridUs) == Quantum(gridUs)
    {
      quantumUs := quantumUs / 2;
    }
  }

  ghost predicate FirstDivisor(gridUs: nat, i: nat)
    requires i < |CANDIDATES|
  {
    gridUs % CANDIDATES[i] == 0 && forall j | 0 <= j < i :: gridUs % CANDIDATES[j] != 0
  }

  /** The quantum is the first of 100, 50, 25, 12, 6, 3, 1 that divides the grid; without a grid it is 100. */
  lemma QuantumIsFirstDivisor(gridUs: nat)
    ensures gridUs > 0 ==> exists i | 0 <= i < |CANDIDATES| :: FirstDivisor(gridUs, i) && Quantum(gridUs) == CANDIDATES[i]
    ensures gridUs == 0 ==> Quantum(gridUs) == 100
  {
    assert QuantumFrom(3, gridUs) == if gridUs > 0 && gridUs % 3 != 0 then QuantumFrom(1, gridUs) else 3;
    assert QuantumFrom(12, gridUs) == if gridUs > 0 && gridUs % 12 != 0 then QuantumFrom(6, gridUs) else 12;
    assert QuantumFrom(50, gridUs) == if gridUs > 0 && gridUs % 50 != 0 then QuantumFrom(25, gridUs) else 50;
    var i := if gridUs % 100 == 0 then 0 else if gridUs % 50 == 0 then 1 else if gridUs % 25 == 0 then 2
             else if gridUs % 12 == 0 then 3 else if gridUs % 6 == 0 then 4 else if gridUs % 3 == 0 then 5 else 6;
    if gridUs > 0 {
      assert FirstDivisor(gridUs, i) && Quantum(gridUs) == CANDIDATES[i];
    }
  }

  lemma QuantumDividesGrid(gridUs: nat)
    ensures gridUs > 0 ==> gridUs % Quantum(gridUs) == 0
  {
    QuantumIsFirstDivisor(gridUs);
  }

  const POWERS: seq<nat> := [64, 32, 16, 8, 4, 2, 1]

  /** The k-th of the powers of two up to 100, largest first, divides the grid and none before it does. */
  ghost predicate LargestPower(gridUs: nat, k: nat)
    requires k < |POWERS|
  {
    gridUs % POWERS[k] == 0 && forall j | 0 <= j < k :: gridUs % POWERS[j] != 0
  }

  /** What the comment above the source's function promises. */
  ghost predicate IsLargestPowerOfTwo(q: nat, gridUs: nat) {
    exists k | 0 <= k < |POWERS| :: POWERS[k] == q && LargestPower(gridUs, k)
  }

  /** An odd grid has only 1; an even one has at least 2. */
  lemma LargestPowerIs(gridUs: nat)
    ensures gridUs % 2 != 0 ==> (forall q :: IsLargestPowerOfTwo(q, gridUs) <==> q == 1)
    ensures gridUs % 2 == 0 ==> !IsLargestPowerOfTwo(1, gridUs)
  {
    if gridUs % 2 != 0 {
      OddHasNoPower(gridUs);
      assert LargestPower(gridUs, 6);
      forall k | 0 <= k < |POWERS| && LargestPower(gridUs, k)
        ensures k == 6
      {
      }
    } else {
      forall k | 0 <= k < |POWERS| && POWERS[k] == 1
        ensures !LargestPower(gridUs, k)
      {
        assert gridUs % POWERS[5] == 0;
      }
    }
  }

  lemma OddHasNoPower(gridUs: nat)
    requires gridUs % 2 != 0
    ensures forall k | 0 <= k < 6 :: gridUs % POWERS[k] != 0
  {
    assert gridUs % 4 != 0;
    assert gridUs % 8 != 0;
    assert gridUs % 16 != 0;
    assert gridUs % 32 != 0;
    assert gridUs % 64 != 0;
  }

  /** The only power of two among the candidates is 1, and it is reached when nothing else divides. */
  lemma QuantumIsOneIff(gridUs: nat)
    requires gridUs > 0
    ensures Quantum(gridUs) in CANDIDATES
    ensures Quantum(gridUs) == 1 <==> gridUs % 3 != 0 && gridUs % 6 != 0 && gridUs % 12 != 0
                                      && gridUs % 25 != 0 && gridUs % 50 != 0 && gridUs % 100 != 0
  {
    hide Quantum;
    QuantumIsFirstDivisor(gridUs);
    var i :| 0 <= i < |CANDIDATES| && FirstDivisor(gridUs, i) && Quantum(gridUs) == CANDIDATES[i];
    assert CANDIDATES[0] == 100 && CANDIDATES[1] == 50 && CANDIDATES[2] == 25
        && CANDIDATES[3] == 12 && CANDIDATES[4] == 6 && CANDIDATES[5] == 3;
  }

  lemma FactorDivides(n: nat, a: nat, b: nat)
    requires a > 0 && b > 0 && n % (a * b) == 0
    ensures n % a == 0
  {
    var k := n / (a * b);
    assert n == k * (a * b);
    assert n == (k * b) * a;
    DivModIs(n, k * b, a, 0);
  }

  lemma ThreeAndTwentyFive(gridUs: nat)
    ensures gridUs % 3 != 0 ==> gridUs % 6 != 0 && gridUs % 12 != 0
    ensures gridUs % 25 != 0 ==> gridUs % 50 != 0 && gridUs % 100 != 0
  {
    if gridUs % 6 == 0 {
      FactorDivides(gridUs, 3, 2);
    }
    if gridUs % 12 == 0 {
      FactorDivides(gridUs, 3, 4);
    }
    if gridUs % 50 == 0 {
      FactorDivides(gridUs, 25, 2);
    }
    if gridUs % 100 == 0 {
      FactorDivides(gridUs, 25, 4);
    }
  }

  /**
   The comment promises the largest power of two up to 100 that divides the grid. The code
   computes that if and only if the grid is divisible by none of 2, 3 and 25: for every even
   gyro period, 1000 us for example, it computes something else.
   */
  lemma QuantumIsLargestPowerOfTwoIff(gridUs: nat)
    requires gridUs > 0
    ensures IsLargestPowerOfTwo(Quantum(gridUs), gridUs) <==> gridUs % 2 != 0 && gridUs % 3 != 0 && gridUs % 25 != 0
  {
    LargestPowerIs(gridUs);
    QuantumIsOneIff(gridUs);
    ThreeAndTwentyFive(gridUs);
    hide Quantum;
  }

  // ---- snapping a step onto the grid ----

  function Distance(a: nat, b: nat): nat {
    if a > b then a - b else b - a
  }

  function Nearest(dtUs: nat, gridUs: nat): nat
    requires gridUs > 0
  {
    (dtUs + gridUs / 2) % U32 / gridUs * gridUs
  }

  function Snap(dtUs: nat, gridUs: nat, enabled: bool): nat {
    if enabled && gridUs > 0
       && Nearest(dtUs, gridUs) > 0
       && Distance(Nearest(dtUs, gridUs), dtUs) * 10 % U32 <= gridUs * 3 % U32
    then Nearest(dtUs, gridUs)
    else dtUs
  }

  /** The k-th multiple of the grid, k positive, is within three tenths of the grid from the step. */
  ghost predicate IsNear(dtUs: nat, gridUs: nat, k: nat) {
    k > 0 && Distance(k * gridUs, dtUs) * 10 <= gridUs * 3
  }

  /** Without a gyro grid, or with snapping switched off, every step is passed through. */
  lemma SnapNeedsGrid(dtUs: nat, gridUs: nat, enabled: bool)
    ensures !enabled || gridUs == 0 ==> Snap(dtUs, gridUs, enabled) == dtUs
  {
  }

  /** A step so long that the sum wraps round is near no multiple for the code, and is passed through. */
  lemma WrappedStepIsUntouched(dtUs: nat, gridUs: nat)
    requires 0 < gridUs < 0x1_0000_0000 && dtUs < 0x1_0000_0000 <= dtUs + gridUs / 2
    ensures Snap(dtUs, gridUs, true) == dtUs
  {
    var rest := dtUs + gridUs / 2 - 0x1_0000_0000;
    DivModIs(dtUs + gridUs / 2, 1, U32, rest);
    DivModIs(rest, 0, gridUs, rest);
  }

  /** Bounds that only exclude 32-bit wrap-around in the snap. */
  ghost predicate SnapFits(dtUs: nat, gridUs: nat) {
    gridUs > 0 && dtUs + gridUs / 2 < 0x1_0000_0000 && 10 * gridUs < 0x1_0000_0000
  }

  lemma NearestIsMultiple(dtUs: nat, gridUs: nat) returns (k: nat)
    requires SnapFits(dtUs, gridUs)
    ensures Nearest(dtUs, gridUs) == k * gridUs
    ensures Distance(k * gridUs, dtUs) <= gridUs / 2
    ensures k > 0 <==> k * gridUs > 0
  {
    var x := dtUs + gridUs / 2;
    k := x / gridUs;
    Division(x, gridUs);
    if k > 0 {
      ProductAtLeast(k, gridUs);
    }
    HalfBelow(dtUs, gridUs, k * gridUs, x % gridUs);
  }

  lemma Division(x: nat, q: nat)
    requires q > 0
    ensures x == x / q * q + x % q && x % q < q
  {
  }

  lemma HalfBelow(dtUs: nat, gridUs: nat, target: nat, rest: nat)
    requires dtUs + gridUs / 2 == target + rest && rest < gridUs
    ensures Distance(target, dtUs) <= gridUs / 2
  {
  }

  lemma NearMultipleIsNearest(dtUs: nat, gridUs: nat, k: nat)
    requires SnapFits(dtUs, gridUs) && IsNear(dtUs, gridUs, k)
    ensures Nearest(dtUs, gridUs) == k * gridUs
  {
    var target := k * gridUs;
    var r := dtUs + gridUs / 2 - target;
    assert 0 <= r < gridUs;
    DivModIs(dtUs + gridUs / 2, k, gridUs, r);
  }

  lemma SnapWithoutWrap(dtUs: nat, gridUs: nat)
    requires SnapFits(dtUs, gridUs) && Distance(Nearest(dtUs, gridUs), dtUs) <= gridUs
    ensures Snap(dtUs, gridUs, true)
         == if Nearest(dtUs, gridUs) > 0 && Distance(Nearest(dtUs, gridUs), dtUs) * 10 <= gridUs * 3
            then Nearest(dtUs, gridUs) else dtUs
  {
    hide Nearest;
  }

  /** A step within three tenths of a positive multiple of the grid becomes that multiple... */
  lemma NearStepIsSnapped(dtUs: nat, gridUs: nat, k: nat)
    requires SnapFits(dtUs, gridUs) && IsNear(dtUs, gridUs, k)
    ensures Snap(dtUs, gridUs, true) == k * gridUs
  {
    NearMultipleIsNearest(dtUs, gridUs, k);
    ProductAtLeast(k, gridUs);
    hide Nearest, Snap;
    SnapWithoutWrap(dtUs, gridUs);
  }

  /** ... and any other step is passed through untouched. */
  lemma OtherStepIsUntouched(dtUs: nat, gridUs: nat)
    requires SnapFits(dtUs, gridUs) && forall k: nat :: !IsNear(dtUs, gridUs, k)
    ensures Snap(dtUs, gridUs, true) == dtUs
  {
    hide Nearest, Snap;
    var k := NearestIsMultiple(dtUs, gridUs);
    SnapWithoutWrap(dtUs, gridUs);
    assert !IsNear(dtUs, gridUs, k);
  }

  /** Snapping is stable: a step that was snapped is not moved again. */
  lemma SnapIsIdempotent(dtUs: nat, gridUs: nat)
    requires SnapFits(dtUs + gridUs, gridUs)
    ensures Snap(Snap(dtUs, gridUs, true), gridUs, true) == Snap(dtUs, gridUs, true)
  {
    hide Nearest, Snap;
    var k := NearestIsMultiple(dtUs, gridUs);
    SnapWithoutWrap(dtUs, gridUs);
    if Snap(dtUs, gridUs, true) != dtUs {
      NearStepIsSnapped(k * gridUs, gridUs, k);
    }
  }

  // ---- the step loop ----

  /** The clock, the carried remainder and the times at which the scheduler ran. */
  datatype Clock = Clock(now: nat, remainder: nat, passes: seq<nat>)

  function StepClock(c: Clock, stepUs: nat, quantumUs: nat): Clock
    requires quantumUs > 0
  {
    var remaining := (stepUs + c.remainder) % U32;
    var n := remaining / quantumUs;
    Clock(c.now + n * quantumUs, remaining % quantumUs, c.passes + Ticks(c.now, quantumUs, n))
  }

  class LocalClock {
    var now: nat
    var remainder: nat
    var passes: seq<nat>

    constructor (start: nat)
      ensures View() == Clock(start, 0, [])
    {
      now, remainder, passes := start, 0, [];
    }

    ghost function View(): Clock
      reads this
    {
      Clock(now, remainder, passes)
    }

    /** The snap of sitl_local_step(), statement by statement. */
    method SnapStep(dtUs: nat, gridUs: nat, snapEnabled: bool) returns (stepUs: nat)
      ensures stepUs == Snap(dtUs, gridUs, snapEnabled)
    {
      stepUs := dtUs;
      if snapEnabled && gridUs > 0 {
        var nearest := (dtUs + gridUs / 2) % U32 / gridUs * gridUs;
        var diff := if nearest > dtUs then nearest - dtUs else dtUs - nearest;
        if nearest > 0 && diff * 10 % U32 <= gridUs * 3 % U32 {
          stepUs := nearest;
        }
      }
    }

    /** The clock part of sitl_local_step(). */
    method Step(dtUs: nat, gridUs: nat, snapEnabled: bool)
      modifies this
      ensures View() == StepClock(old(View()), Snap(dtUs, gridUs, snapEnabled), Quantum(gridUs))
    {
      var stepUs := SnapStep(dtUs, gridUs, snapEnabled);
      var quantumUs := StepQuantum(gridUs);
      var remainingUs := (stepUs + remainder) % U32;
      remainder := remainingUs % quantumUs;
      Consume(remainingUs, quantumUs);
    }

    /** One scheduler pass per quantum. */
    method Consume(totalUs: nat, quantumUs: nat)
      requires quantumUs > 0
      modifies this`now, this`passes
      ensures now == old(now) + totalUs / quantumUs * quantumUs
      ensures passes == old(passes) + Ticks(old(now), quantumUs, totalUs / quantumUs)
    {
      var remainingUs: nat := totalUs;
      ghost var n: nat := 0;
      while remainingUs >= quantumUs
        invariant totalUs == n * quantumUs + remainingUs
        invariant now == old(now) + n * quantumUs
        invariant passes == old(passes) + Ticks(old(now), quantumUs, n)
        decreases remainingUs
      {
        assert (n + 1) * quantumUs == n * quantumUs + quantumUs;
        now := now + quantumUs;
        remainingUs := remainingUs - quantumUs;
        passes := passes + [now];
        n := n + 1;
      }
      DivModIs(totalUs, n, quantumUs, remainingUs);
    }
  }

  // ---- what the steps add up to ----

  /** One step neither loses nor invents time, unless the 32-bit sum wraps; then exactly 2^32 us are lost. */
  lemma StepConservesIffNoWrap(c: Clock, stepUs: nat, quantumUs: nat)
    requires quantumUs > 0
    ensures var d := StepClock(c, stepUs, quantumUs);
      && d.remainder < quantumUs
      && (d.now + d.remainder == c.now + c.remainder + stepUs <==> stepUs + c.remainder < 0x1_0000_0000)
      && (0x1_0000_0000 <= stepUs + c.remainder < 0x2_0000_0000 ==>
            d.now + d.remainder + 0x1_0000_0000 == c.now + c.remainder + stepUs)
  {
    var remaining := (stepUs + c.remainder) % U32;
    assert remaining == remaining / quantumUs * quantumUs + remaining % quantumUs;
  }

  datatype Request = Request(dtUs: nat, gridUs: nat, snapEnabled: bool)

  function Snapped(r: Request): nat {
    Snap(r.dtUs, r.gridUs, r.snapEnabled)
  }

  function Run(c: Clock, requests: seq<Request>): Clock
    decreases |requests|
  {
    if requests == [] then c
    else
      var r := requests[0];
      Run(StepClock(c, Snapped(r), Quantum(r.gridUs)), requests[1..])
  }

  function TotalSnapped(requests: seq<Request>): nat {
    if requests == [] then 0 else Snapped(requests[0]) + TotalSnapped(requests[1..])
  }

  /** No step is so long that it could wrap with a carried remainder of less than a quantum. */
  ghost predicate NoWrap(requests: seq<Request>) {
    forall r | r in requests :: Snapped(r) + 100 <= 0x1_0000_0000
  }

  /** Even when the grid changes from step to step, the clock plus the remainder is the sum of the snapped steps. */
  lemma {:induction false} RunConservesTime(c: Clock, requests: seq<Request>)
    requires NoWrap(requests) && c.remainder < 100
    ensures Run(c, requests).now + Run(c, requests).remainder == c.now + c.remainder + TotalSnapped(requests)
    ensures Run(c, requests).remainder < 100
    decreases |requests|
  {
    if requests != [] {
      var r := requests[0];
      assert r in requests;
      hide Snap, Quantum;
      StepConservesIffNoWrap(c, Snapped(r), Quantum(r.gridUs));
      RunConservesTime(StepClock(c, Snapped(r), Quantum(r.gridUs)), requests[1..]);
    }
  }

  /** The clock after `total` us at quantum q, in closed form. */
  function ClosedForm(c: Clock, total: nat, quantumUs: nat): Clock
    requires quantumUs > 0
  {
    var n := (c.remainder + total) / quantumUs;
    Clock(c.now + n * quantumUs, (c.remainder + total) % quantumUs, c.passes + Ticks(c.now, quantumUs, n))
  }

  lemma StepThenClosedForm(c: Clock, stepUs: nat, rest: nat, quantumUs: nat)
    requires quantumUs > 0 && stepUs + c.remainder < U32
    ensures ClosedForm(StepClock(c, stepUs, quantumUs), rest, quantumUs) == ClosedForm(c, stepUs + rest, quantumUs)
  {
    var first := c.remainder + stepUs;
    var m, r := first / quantumUs, first % quantumUs;
    var n, s := (r + rest) / quantumUs, (r + rest) % quantumUs;
    hide Ticks;
    JoinDivisions(first, rest, quantumUs);
    TicksJoin(c.now, quantumUs, m, n);
    var now := c.now + m * quantumUs;
    assert StepClock(c, stepUs, quantumUs) == Clock(now, r, c.passes + Ticks(c.now, quantumUs, m));
    assert now + n * quantumUs == c.now + (m + n) * quantumUs;
    assert c.passes + Ticks(c.now, quantumUs, m) + Ticks(now, quantumUs, n)
        == c.passes + (Ticks(c.now, quantumUs, m) + Ticks(now, quantumUs, n));
  }

  /** Dividing a sum is dividing the first part and then the rest of it together with the second. */
  lemma JoinDivisions(first: nat, rest: nat, q: nat)
    requires q > 0
    ensures var m, r := first / q, first % q;
            var n, s := (r + rest) / q, (r + rest) % q;
      && (first + rest) / q == m + n && (first + rest) % q == s
      && (m + n) * q == m * q + n * q
  {
    var m, r := first / q, first % q;
    var n, s := (r + rest) / q, (r + rest) % q;
    Division(first, q);
    Division(r + rest, q);
    Distribute(m, n, q);
    DivModIs(first + rest, m + n, q, s);
  }

  lemma Distribute(m: nat, n: nat, q: nat)
    ensures (m + n) * q == m * q + n * q
  {
  }

  /**
   With a fixed grid and whatever the steps: the clock is the start plus the largest
   multiple of the quantum in the time received, the rest is the remainder, and the
   scheduler ran once at every quantum in between.
   */
  lemma {:induction false} RunClosedForm(c: Clock, requests: seq<Request>, gridUs: nat)
    requires NoWrap(requests) && c.remainder < Quantum(gridUs)
    requires forall r | r in requests :: r.gridUs == gridUs
    ensures Run(c, requests) == ClosedForm(c, TotalSnapped(requests), Quantum(gridUs))
    decreases |requests|
  {
    var q := Quantum(gridUs);
    hide Snap, Quantum;
    if requests == [] {
      DivModIs(c.remainder, 0, q, c.remainder);
      assert Ticks(c.now, q, 0) == [];
    } else {
      var r := requests[0];
      assert r in requests && r.gridUs == gridUs;
      StepConservesIffNoWrap(c, Snapped(r), q);
      RunClosedForm(StepClock(c, Snapped(r), q), requests[1..], gridUs);
      StepThenClosedForm(c, Snapped(r), TotalSnapped(requests[1..]), q);
    }
  }

  /**
   A task deadline in the time a run covers is met by a scheduler pass at exactly that time
   if and only if clock and deadline agree modulo the quantum when the run starts.
   */
  lemma DeadlinesAreHitIff(c: Clock, requests: seq<Request>, gridUs: nat, deadline: nat)
    requires gridUs > 0 && NoWrap(requests) && c.remainder < Quantum(gridUs)
    requires forall r | r in requests :: r.gridUs == gridUs
    requires c.now < deadline <= Run(c, requests).now
    ensures c.passes <= Run(c, requests).passes
    ensures deadline in Run(c, requests).passes[|c.passes|..]
       <==> deadline % Quantum(gridUs) == c.now % Quantum(gridUs)
  {
    var q := Quantum(gridUs);
    RunClosedForm(c, requests, gridUs);
    hide Snap, Quantum, Run, Ticks;
    var n := (c.remainder + TotalSnapped(requests)) / q;
    assert Run(c, requests).passes[|c.passes|..] == Ticks(c.now, q, n);
    SameResidueIff(c.now, deadline, q);
    TicksHitExactlyTheGrid(c.now, q, n, deadline);
  }

  /** Deadlines one gyro period apart agree with the clock modulo the quantum if one of them does. */
  lemma DeadlinesStayOnQuantum(deadline: nat, gridUs: nat)
    requires gridUs > 0
    ensures (deadline + gridUs) % Quantum(gridUs) == deadline % Quantum(gridUs)
  {
    var q := Quantum(gridUs);
    QuantumDividesGrid(gridUs);
    hide Quantum;
    assert deadline + gridUs == deadline / q * q + deadline % q + gridUs / q * q;
    assert (deadline / q + gridUs / q) * q == deadline / q * q + gridUs / q * q;
    DivModIs(deadline + gridUs, deadline / q + gridUs / q, q, deadline % q);
  }

  lemma SameResidueIff(a: nat, b: nat, q: nat)
    requires q > 0 && a <= b
    ensures (b - a) % q == 0 <==> b % q == a % q
  {
    Division(a, q);
    Division(b, q);
    Division(b - a, q);
    if a % q == b % q {
      ProductCancel(a / q, b / q, q);
      Distribute(b / q - a / q, a / q, q);
      DivModIs(b - a, b / q - a / q, q, 0);
    }
    if (b - a) % q == 0 {
      Distribute((b - a) / q, a / q, q);
      DivModIs(b, (b - a) / q + a / q, q, a % q);
    }
  }
}
