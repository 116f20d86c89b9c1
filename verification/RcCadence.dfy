/**
 The receiver's frame cadence: each poll of the frame status may announce a frame once
 8000 us have passed since the previous one (or since init, the anchor).
 */
module RcCadence {
  import opened Common

  const FRAME_US := 8000

  datatype Rc = Rc(valid: bool, announceUs: nat, count: nat)

  predicate IsDue(s: Rc, now: nat) {
    s.valid && now >= s.announceUs + FRAME_US
  }

  function Polled(s: Rc, now: nat): Rc {
    if IsDue(s, now) then Rc(true, now, s.count + 1) else s
  }

  function Run(s: Rc, polls: seq<nat>): Rc
    decreases |polls|
  {
    if polls == [] then s else Polled(Run(s, polls[..|polls| - 1]), polls[|polls| - 1])
  }

  /** The times at which a frame was announced. */
  function FrameTimes(s: Rc, polls: seq<nat>): seq<nat>
    decreases |polls|
  {
    if polls == [] then []
    else
      var front, now := polls[..|polls| - 1], polls[|polls| - 1];
      FrameTimes(s, front) + if IsDue(Run(s, front), now) then [now] else []
  }

  function LastOr(times: seq<nat>, anchor: nat): nat {
    if times == [] then anchor else times[|times| - 1]
  }

  /** Each time comes at least lo and less than hi after the one before it, the first after the anchor. */
  predicate Spaced(times: seq<nat>, anchor: nat, lo: nat, hi: nat) {
    if times == [] then true
    else
      var front, last := times[..|times| - 1], times[|times| - 1];
      Spaced(front, anchor, lo, hi) && LastOr(front, anchor) + lo <= last < LastOr(front, anchor) + hi
  }

  /** Before the host has sent stick data no frame is announced. */
  lemma {:induction false} NoFrameBeforeData(s: Rc, polls: seq<nat>)
    requires !s.valid
    ensures Run(s, polls) == s && FrameTimes(s, polls) == []
    decreases |polls|
  {
    if polls != [] {
      NoFrameBeforeData(s, polls[..|polls| - 1]);
    }
  }

  /**
   Frames are never closer than 8000 us, and with polls at most p apart always closer than
   8000 + p; between frames fewer than 8000 us have passed at every poll.
   */
  lemma {:induction false} FramesKeepTheirDistance(s: Rc, polls: seq<nat>, p: nat)
    requires s.valid && Spaced(polls, s.announceUs, 0, p + 1)
    ensures var f, r := FrameTimes(s, polls), Run(s, polls);
            && Spaced(f, s.announceUs, 8000, 8000 + p)
            && r.valid && r.count == s.count + |f| && r.announceUs == LastOr(f, s.announceUs)
            && r.announceUs <= LastOr(polls, s.announceUs) < r.announceUs + 8000
    decreases |polls|
  {
    if polls == [] {
    } else {
      var front, now := polls[..|polls| - 1], polls[|polls| - 1];
      FramesKeepTheirDistance(s, front, p);
      var f := FrameTimes(s, front);
      assert f + [] == f && (f + [now])[..|f|] == f;
    }
  }

  lemma {:induction false} SpacedAddsUp(f: seq<nat>, anchor: nat, lo: nat, hi: nat)
    requires Spaced(f, anchor, lo, hi) && hi > 0
    ensures anchor + |f| * lo <= LastOr(f, anchor) <= anchor + |f| * (hi - 1)
    decreases |f|
  {
    if f == [] {
    } else {
      var front, last := f[..|f| - 1], f[|f| - 1];
      SpacedAddsUp(front, anchor, lo, hi);
      assert |f| * lo == |front| * lo + lo && |f| * (hi - 1) == |front| * (hi - 1) + (hi - 1);
    }
  }

  /** The number of frames is bounded on both sides by the time elapsed since the anchor. */
  lemma CountFollowsTime(s: Rc, polls: seq<nat>, p: nat)
    requires s.valid && Spaced(polls, s.announceUs, 0, p + 1)
    ensures var n, elapsed := |FrameTimes(s, polls)|, LastOr(polls, s.announceUs) - s.announceUs;
            n * 8000 <= elapsed < n * (8000 + p - 1) + FRAME_US
  {
    FramesKeepTheirDistance(s, polls, p);
    SpacedAddsUp(FrameTimes(s, polls), s.announceUs, FRAME_US, FRAME_US + p);
  }

  /** Polls on every point of a grid of d us from the anchor. */
  predicate OnGrid(polls: seq<nat>, anchor: nat, d: nat) {
    forall i | 0 <= i < |polls| :: IsTick(polls[i], anchor, d, i + 1)
  }

  predicate IsTick(t: nat, anchor: nat, d: nat, k: nat) {
    t == anchor + k * d
  }

  /** When the poll period divides 8000 us the cadence does not drift: frame k comes exactly at anchor + k * 8000. */
  lemma {:induction false} GridCadenceIsExact(s: Rc, polls: seq<nat>, d: nat, m: nat)
    requires s.valid && m > 0 && m * d == 8000 && OnGrid(polls, s.announceUs, d)
    ensures var r := Run(s, polls);
            && r.valid
            && r.count == s.count + |polls| / m
            && r.announceUs == s.announceUs + (|polls| / m) * 8000
    decreases |polls|
  {
    var n := |polls|;
    if n == 0 {
      DivModIs(0, 0, m, 0);
    } else {
      var front, now := polls[..n - 1], polls[n - 1];
      forall i | 0 <= i < |front|
        ensures IsTick(front[i], s.announceUs, d, i + 1)
      {
        assert IsTick(polls[i], s.announceUs, d, i + 1);
      }
      GridCadenceIsExact(s, front, d, m);
      assert IsTick(now, s.announceUs, d, n);
      var q, r := (n - 1) / m, (n - 1) % m;
      NextTick(n, m, d, q, r);
    }
  }

  /** The n-th tick is due exactly when it completes a group of m. */
  lemma NextTick(n: nat, m: nat, d: nat, q: nat, r: nat)
    requires n > 0 && m > 0 && m * d == FRAME_US && q == (n - 1) / m && r == (n - 1) % m
    ensures n * d == q * FRAME_US + (r + 1) * d
    ensures r + 1 == m ==> n / m == q + 1 && n * d == (q + 1) * FRAME_US
    ensures r + 1 < m ==> n / m == q && n * d < q * FRAME_US + FRAME_US
  {
    assert n == q * m + (r + 1);
    assert (q * m) * d == q * (m * d);
    assert n * d == (q * m) * d + (r + 1) * d;
    if r + 1 == m {
      DivModIs(n, q + 1, m, 0);
    } else {
      DivModIs(n, q, m, r + 1);
      assert d > 0;
      assert m * d == (r + 1) * d + (m - r - 1) * d;
      ProductAtLeast(m - r - 1, d);
    }
  }

  class Receiver {
    var valid: bool
    var announceUs: nat
    var frameCount: nat

    ghost function View(): Rc
      reads this
    {
      Rc(valid, announceUs, frameCount)
    }

    /** At init the frame grid is anchored at the current time and no stick data is valid yet. */
    constructor (now: nat)
      ensures View() == Rc(false, now, 0)
    {
      valid, announceUs, frameCount := false, now, 0;
    }

    method HostData()
      modifies this`valid
      ensures valid
    {
      valid := true;
    }

    method FrameStatus(now: nat) returns (complete: bool)
      requires now >= announceUs
      modifies this`announceUs, this`frameCount
      ensures View() == Polled(old(View()), now)
      ensures complete <==> IsDue(old(View()), now)
    {
      complete := false;
      if valid && now - announceUs >= FRAME_US {
        announceUs := now;
        frameCount := frameCount + 1;
        complete := true;
      }
    }
  }
}
