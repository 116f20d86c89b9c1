/** The crash-flip latch, updated once after every step from the arming flag and the mode box. */
module CrashFlip {
  datatype Input = Input(armed: bool, box: bool)

  datatype Latch = Latch(latched: bool, wasArmed: bool)

  function Updated(l: Latch, i: Input): Latch {
    Latch(
      if !i.armed then false
      else if !l.wasArmed then i.box
      else if l.latched && !i.box then false
      else l.latched,
      i.armed)
  }

  function Run(inputs: seq<Input>): Latch
    decreases |inputs|
  {
    if inputs == [] then Latch(false, false)
    else Updated(Run(inputs[..|inputs| - 1]), inputs[|inputs| - 1])
  }

  /** The craft was armed at step e, after being disarmed or never stepped. */
  predicate IsArmEdge(inputs: seq<Input>, e: nat) {
    e < |inputs| && inputs[e].armed && (e == 0 || !inputs[e - 1].armed)
  }

  /** Armed with the box on at every step from e to the end. */
  predicate HeldSince(inputs: seq<Input>, e: nat) {
    forall i | e <= i < |inputs| :: inputs[i].armed && inputs[i].box
  }

  /** The latch is on if and only if the craft is armed and the box was on at the arm edge and ever since. */
  lemma {:induction false} LatchedIffHeldSinceArming(inputs: seq<Input>)
    ensures Run(inputs).latched <==> exists e: nat :: IsArmEdge(inputs, e) && HeldSince(inputs, e)
    ensures Run(inputs).wasArmed <==> inputs != [] && inputs[|inputs| - 1].armed
    decreases |inputs|
  {
    if inputs == [] {
    } else {
      var front, last := inputs[..|inputs| - 1], inputs[|inputs| - 1];
      LatchedIffHeldSinceArming(front);
      forall e: nat | e < |front|
        ensures IsArmEdge(inputs, e) <==> IsArmEdge(front, e)
        ensures HeldSince(inputs, e) <==> HeldSince(front, e) && last.armed && last.box
      {
        HeldOneMore(inputs, e);
      }
      if Run(inputs).latched {
        if Run(front).wasArmed {
          var e: nat :| IsArmEdge(front, e) && HeldSince(front, e);
          assert IsArmEdge(inputs, e) && HeldSince(inputs, e);
        } else {
          assert IsArmEdge(inputs, |front|) && HeldSince(inputs, |front|);
        }
      } else if e: nat :| IsArmEdge(inputs, e) && HeldSince(inputs, e) {
        assert inputs[|front|].armed && inputs[|front|].box;
        assert e == |front| || (IsArmEdge(front, e) && HeldSince(front, e));
      }
    }
  }

  lemma HeldOneMore(inputs: seq<Input>, e: nat)
    requires e + 1 < |inputs|
    ensures var front, last := inputs[..|inputs| - 1], inputs[|inputs| - 1];
            HeldSince(inputs, e) <==> HeldSince(front, e) && last.armed && last.box
  {
    var front, last := inputs[..|inputs| - 1], inputs[|inputs| - 1];
    assert inputs == front + [last];
  }

  class CrashFlipLatch {
    var latched: bool
    var wasArmed: bool

    constructor ()
      ensures Latch(latched, wasArmed) == Run([])
    {
      latched, wasArmed := false, false;
    }

    method Update(armed: bool, box: bool)
      modifies this
      ensures Latch(latched, wasArmed) == Updated(old(Latch(latched, wasArmed)), Input(armed, box))
    {
      if !armed {
        latched := false;
      } else if !wasArmed {
        latched := box;
      } else if latched && !box {
        latched := false;
      }
      wasArmed := armed;
    }
  }
}
