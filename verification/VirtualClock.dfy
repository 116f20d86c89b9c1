/** The scheduler passes of a clock that advances in fixed quanta. */
module VirtualClock {
  import opened Common

  /** The times of `n` passes, one after each quantum, starting from `now`. */
  function Ticks(now: nat, quantum: nat, n: nat): (t: seq<nat>)
    ensures |t| == n
  {
    if n == 0 then [] else Ticks(now, quantum, n - 1) + [now + n * quantum]
  }

  lemma {:induction false} TickAt(now: nat, quantum: nat, n: nat, i: nat)
    requires i < n
    ensures Ticks(now, quantum, n)[i] == now + (i + 1) * quantum
  {
    if i < n - 1 {
      TickAt(now, quantum, n - 1, i);
    }
  }

  lemma {:induction false} TicksJoin(now: nat, quantum: nat, m: nat, n: nat)
    ensures Ticks(now, quantum, m) + Ticks(now + m * quantum, quantum, n) == Ticks(now, quantum, m + n)
  {
    if n > 0 {
      TicksJoin(now, quantum, m, n - 1);
      assert now + m * quantum + n * quantum == now + (m + n) * quantum;
      assert Ticks(now, quantum, m + n) == Ticks(now, quantum, m + n - 1) + [now + (m + n) * quantum];
    }
  }

  /** Every time on the grid of quanta that the clock passes is a pass of the scheduler, and there are no others. */
  lemma TicksHitExactlyTheGrid(now: nat, quantum: nat, n: nat, time: nat)
    requires quantum > 0
    ensures time in Ticks(now, quantum, n)
       <==> now < time <= now + n * quantum && (time - now) % quantum == 0
  {
    if time in Ticks(now, quantum, n) {
      var i :| 0 <= i < n && Ticks(now, quantum, n)[i] == time;
      TickAt(now, quantum, n, i);
      TickIsOnGrid(now, quantum, n, i);
    }
    if now < time <= now + n * quantum && (time - now) % quantum == 0 {
      GridIndex(time - now, quantum, n);
      TickAt(now, quantum, n, (time - now) / quantum - 1);
    }
  }

  lemma TickIsOnGrid(now: nat, quantum: nat, n: nat, i: nat)
    requires quantum > 0 && i < n
    ensures quantum <= (i + 1) * quantum <= n * quantum
    ensures (i + 1) * quantum % quantum == 0
  {
    DivModIs((i + 1) * quantum, i + 1, quantum, 0);
    ProductAtLeast(i + 1, quantum);
    ProductMonotone(i + 1, n, quantum);
  }

  lemma GridIndex(distance: nat, quantum: nat, n: nat)
    requires quantum > 0 && 0 < distance <= n * quantum && distance % quantum == 0
    ensures 1 <= distance / quantum <= n && distance == distance / quantum * quantum
  {
    var k := distance / quantum;
    assert distance == k * quantum;
    assert k == 0 ==> k * quantum == 0;
    ProductCancel(k, n, quantum);
  }
}
