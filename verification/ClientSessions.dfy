/**
 Runs of the client slots: the accept loop, the client threads, the flight thread's sends
 and the host's drop-all interleave between locked sections. A ledger keeps, by socket, what
 became of every accepted client, and which of those that left still have to look at the
 counter. Accepted sockets are new handles: none is used twice.
 */
module ClientSessions {
  import opened Common
  import opened ClientSlots

  /** A client thread's argument: its slot and its socket. */
  datatype Thread = Thread(slot: nat, sock: Socket)

  datatype Ledger = Ledger(
    accepted: set<Socket>,   // registered in a slot
    left: set<Socket>,       // taken out by its own thread
    failed: set<Socket>,     // taken out by a failed send
    dropped: set<Socket>,    // taken out by a drop of all clients
    checking: set<Socket>,   // left, and the thread has not looked at the counter yet
    fed: set<Socket>,        // left, and its thread fed "exit noreboot" to the port
    skipped: set<Socket>)    // left, and its thread found somebody connected

  datatype State = State(table: Table, threads: set<Thread>, used: set<Socket>, ledger: Ledger)

  datatype Step =
    | Accept(client: Socket)
    | Leave(thread: Thread)
    | Check(sock: Socket)
    | Send(fails: seq<bool>)
    | DropAll

  /** The clients registered in the slots. */
  ghost function Held(slots: Slots): set<Socket> {
    set i | 0 <= i < |slots| && slots[i].Some? :: slots[i].value
  }

  /** The clients whose send fails. */
  ghost function Failing(slots: Slots, fails: seq<bool>): set<Socket>
    requires |fails| == |slots|
  {
    set i | 0 <= i < |slots| && slots[i].Some? && fails[i] :: slots[i].value
  }

  ghost predicate Enabled(s: State, step: Step) {
    match step
    case Accept(client) => client !in s.used
    case Leave(thread) => thread in s.threads && thread.slot < |s.table.slots|
    case Check(sock) => sock in s.ledger.checking
    case Send(fails) => |fails| == |s.table.slots|
    case DropAll => true
  }

  ghost function Apply(s: State, step: Step): State
    requires Enabled(s, step)
  {
    var l := s.ledger;
    match step
    case Accept(client) =>
      var slot := FirstFree(s.table.slots);
      var used := s.used + {client};
      if slot.None? then s.(used := used)
      else State(Accepted(s.table, client), s.threads + {Thread(slot.value, client)}, used,
                 l.(accepted := l.accepted + {client}))
    case Leave(thread) =>
      var wasActive := s.table.slots[thread.slot] == Some(thread.sock);
      State(Disconnected(s.table, thread.slot, thread.sock), s.threads - {thread}, s.used,
            if wasActive then l.(left := l.left + {thread.sock}, checking := l.checking + {thread.sock}) else l)
    case Check(sock) =>
      s.(ledger := if s.table.count == 0
                   then l.(fed := l.fed + {sock}, checking := l.checking - {sock})
                   else l.(skipped := l.skipped + {sock}, checking := l.checking - {sock}))
    case Send(fails) =>
      s.(table := Broadcast(s.table, fails, |fails|),
         ledger := l.(failed := l.failed + Failing(s.table.slots, fails)))
    case DropAll =>
      s.(table := Emptied(s.table), ledger := l.(dropped := l.dropped + Held(s.table.slots)))
  }

  // ---- the invariant ----

  ghost predicate SlotHasThread(s: State, i: nat)
    requires i < |s.table.slots|
  {
    s.table.slots[i].Some? ==> Thread(i, s.table.slots[i].value) in s.threads
  }

  ghost predicate ThreadIsKnown(s: State, t: Thread) {
    t.slot < SLOTS && t.sock in s.used
  }

  ghost predicate OneThreadPerSocket(s: State, t: Thread, u: Thread) {
    t.sock == u.sock ==> t == u
  }

  ghost predicate Owned(s: State) {
    && |s.table.slots| == SLOTS
    && (forall i | 0 <= i < SLOTS :: SlotHasThread(s, i))
    && (forall t | t in s.threads :: ThreadIsKnown(s, t))
    && (forall t, u | t in s.threads && u in s.threads :: OneThreadPerSocket(s, t, u))
  }

  ghost predicate Disjoint4(a: set<Socket>, b: set<Socket>, c: set<Socket>, d: set<Socket>) {
    a !! b && a !! c && a !! d && b !! c && b !! d && c !! d
  }

  /**
   Every accepted client is in exactly one of four places: in a slot, left, failed or dropped;
   and every client that left still has its check ahead, fed the port or did not.
   */
  ghost predicate Settled(held: set<Socket>, used: set<Socket>, l: Ledger) {
    && l.accepted <= used
    && l.accepted == held + l.left + l.failed + l.dropped
    && Disjoint4(held, l.left, l.failed, l.dropped)
    && l.left == l.checking + l.fed + l.skipped
    && l.checking !! l.fed && l.checking !! l.skipped && l.fed !! l.skipped
  }

  ghost predicate Inv(s: State) {
    Consistent(s.table) && Owned(s) && Settled(Held(s.table.slots), s.used, s.ledger)
  }

  lemma {:induction false} CountShrinks(t: Table, fails: seq<bool>, n: nat)
    requires n <= |t.slots| && n <= |fails|
    ensures Broadcast(t, fails, n).count <= t.count
  {
    if n > 0 {
      CountShrinks(t, fails, n - 1);
    }
  }

  // ---- who is held, before and after ----

  ghost predicate DistinctClients(slots: Slots) {
    forall i, j | 0 <= i < |slots| && 0 <= j < |slots| && slots[i].Some? && slots[i] == slots[j] :: i == j
  }

  lemma SocketInOneSlot(s: State, i: nat, j: nat)
    requires Owned(s) && i < SLOTS && j < SLOTS
    requires s.table.slots[i].Some? && s.table.slots[i] == s.table.slots[j]
    ensures i == j
  {
    assert SlotHasThread(s, i) && SlotHasThread(s, j);
    assert OneThreadPerSocket(s, Thread(i, s.table.slots[i].value), Thread(j, s.table.slots[i].value));
  }

  lemma ClientsAreDistinct(s: State)
    requires Owned(s)
    ensures DistinctClients(s.table.slots)
  {
    forall i, j | 0 <= i < SLOTS && 0 <= j < SLOTS && s.table.slots[i].Some? && s.table.slots[i] == s.table.slots[j]
      ensures i == j
    {
      SocketInOneSlot(s, i, j);
    }
  }

  lemma HeldIn(slots: Slots, i: nat)
    requires i < |slots| && slots[i].Some?
    ensures slots[i].value in Held(slots)
  {
  }

  lemma SlotOf(slots: Slots, sock: Socket) returns (i: nat)
    requires sock in Held(slots)
    ensures i < |slots| && slots[i] == Some(sock)
  {
    i :| i < |slots| && slots[i].Some? && slots[i].value == sock;
  }

  /** The counter is the number of different clients in the slots. */
  lemma {:induction false} HeldCount(slots: Slots)
    requires DistinctClients(slots)
    ensures |Held(slots)| == Occupied(slots)
  {
    if slots == [] {
      assert Held(slots) == {};
    } else {
      var n := |slots| - 1;
      var front := slots[..n];
      HeldCount(front);
      assert Held(slots) == Held(front) + if slots[n].Some? then {slots[n].value} else {};
      forall sock | sock in Held(front)
        ensures slots[n] != Some(sock)
      {
        var i := SlotOf(front, sock);
        assert slots[i] == Some(sock);
      }
    }
  }

  lemma HeldAfterAccept(slots: Slots, i: nat, client: Socket)
    requires i < |slots| && slots[i].None?
    ensures Held(slots[i := Some(client)]) == Held(slots) + {client}
  {
    var after := slots[i := Some(client)];
    HeldIn(after, i);
    forall sock | sock in Held(slots)
      ensures sock in Held(after)
    {
      var j := SlotOf(slots, sock);
      HeldIn(after, j);
    }
  }

  lemma HeldAfterLeave(slots: Slots, i: nat)
    requires DistinctClients(slots) && i < |slots| && slots[i].Some?
    ensures Held(slots[i := None]) == Held(slots) - {slots[i].value} && slots[i].value in Held(slots)
  {
    var after := slots[i := None];
    HeldIn(slots, i);
    forall sock | sock in Held(slots) && sock != slots[i].value
      ensures sock in Held(after)
    {
      var j := SlotOf(slots, sock);
      HeldIn(after, j);
    }
    forall sock | sock in Held(after)
      ensures sock in Held(slots) && sock != slots[i].value
    {
      var j := SlotOf(after, sock);
      HeldIn(slots, j);
    }
  }

  lemma HeldAfterSend(slots: Slots, after: Slots, fails: seq<bool>)
    requires DistinctClients(slots) && |after| == |slots| == |fails|
    requires forall i | 0 <= i < |slots| :: after[i] == if fails[i] then None else slots[i]
    ensures Held(after) == Held(slots) - Failing(slots, fails) && Failing(slots, fails) <= Held(slots)
  {
    forall sock | sock in Held(after)
      ensures sock in Held(slots) && sock !in Failing(slots, fails)
    {
      var j := SlotOf(after, sock);
      HeldIn(slots, j);
    }
    forall sock | sock in Held(slots) && sock !in Failing(slots, fails)
      ensures sock in Held(after)
    {
      var j := SlotOf(slots, sock);
      HeldIn(after, j);
    }
  }

  // ---- every step keeps it ----

  lemma TableStaysConsistent(s: State, step: Step)
    requires Inv(s) && Enabled(s, step)
    ensures Consistent(Apply(s, step).table)
  {
    hide Occupied, Broadcast, Owned, FirstFree, Settled;
    match step
    case Accept(client) => AcceptedIsConsistent(s.table, client);
    case Leave(t) =>
      if s.table.slots[t.slot] == Some(t.sock) {
        RemovedIsConsistent(s.table, t.slot);
      }
    case Check(_) =>
    case Send(fails) => BroadcastIsConsistent(s.table, fails, SLOTS);
    case DropAll => EmptiedIsConsistent(s.table);
  }

  lemma OwnershipIsKept(s: State, step: Step)
    requires Inv(s) && Enabled(s, step)
    ensures Owned(Apply(s, step))
  {
    hide Occupied, Broadcast, Settled;
    var n := Apply(s, step);
    match step
    case Accept(client) =>
      forall t | t in n.threads
        ensures ThreadIsKnown(n, t)
      {
        assert t in s.threads ==> ThreadIsKnown(s, t);
      }
      forall t, u | t in n.threads && u in n.threads
        ensures OneThreadPerSocket(n, t, u)
      {
        assert t in s.threads ==> ThreadIsKnown(s, t);
        assert u in s.threads ==> ThreadIsKnown(s, u);
        assert t in s.threads && u in s.threads ==> OneThreadPerSocket(s, t, u);
      }
      forall i | 0 <= i < SLOTS
        ensures SlotHasThread(n, i)
      {
        assert SlotHasThread(s, i);
      }
    case Leave(thread) => LeaveKeepsOwnership(s, thread);
    case Check(_) => SameThreads(s, n);
    case Send(fails) =>
      BroadcastIsConsistent(s.table, fails, SLOTS);
      SameThreads(s, n);
    case DropAll => SameThreads(s, n);
  }

  /** Only clients went, and no thread changed. */
  lemma SameThreads(s: State, n: State)
    requires Owned(s) && n.threads == s.threads && n.used == s.used && |n.table.slots| == SLOTS
    requires forall i | 0 <= i < SLOTS :: n.table.slots[i] in {None, s.table.slots[i]}
    ensures Owned(n)
  {
    forall i | 0 <= i < SLOTS
      ensures SlotHasThread(n, i)
    {
      assert SlotHasThread(s, i);
    }
    forall t | t in n.threads
      ensures ThreadIsKnown(n, t)
    {
      assert ThreadIsKnown(s, t);
    }
    forall t, u | t in n.threads && u in n.threads
      ensures OneThreadPerSocket(n, t, u)
    {
      assert OneThreadPerSocket(s, t, u);
    }
  }

  lemma LeaveKeepsOwnership(s: State, thread: Thread)
    requires Inv(s) && Enabled(s, Leave(thread))
    ensures Owned(Apply(s, Leave(thread)))
  {
    hide Occupied, Settled;
    var n := Apply(s, Leave(thread));
    forall i | 0 <= i < SLOTS
      ensures SlotHasThread(n, i)
    {
      assert SlotHasThread(s, i);
    }
    forall t | t in n.threads
      ensures ThreadIsKnown(n, t)
    {
      assert ThreadIsKnown(s, t);
    }
    forall t, u | t in n.threads && u in n.threads
      ensures OneThreadPerSocket(n, t, u)
    {
      assert OneThreadPerSocket(s, t, u);
    }
  }

  lemma LedgerIsKept(s: State, step: Step)
    requires Inv(s) && Enabled(s, step)
    ensures Settled(Held(Apply(s, step).table.slots), Apply(s, step).used, Apply(s, step).ledger)
  {
    var slots := s.table.slots;
    ClientsAreDistinct(s);
    hide Occupied, Broadcast, Owned, FirstFree, Held, Failing, DistinctClients, Consistent;
    match step
    case Accept(client) =>
      var slot := FirstFree(slots);
      if slot.Some? {
        HeldAfterAccept(slots, slot.value, client);
      }
    case Leave(thread) =>
      if slots[thread.slot] == Some(thread.sock) {
        HeldAfterLeave(slots, thread.slot);
      }
    case Check(_) =>
    case Send(fails) =>
      SendIsExact(s, fails);
    case DropAll => NoneHeld(Emptied(s.table).slots);
  }

  lemma SendIsExact(s: State, fails: seq<bool>)
    requires Inv(s) && |fails| == |s.table.slots|
    ensures Held(Broadcast(s.table, fails, |fails|).slots) == Held(s.table.slots) - Failing(s.table.slots, fails)
    ensures Failing(s.table.slots, fails) <= Held(s.table.slots)
  {
    ClientsAreDistinct(s);
    hide Settled, Held, Failing;
    BroadcastIsConsistent(s.table, fails, SLOTS);
    HeldAfterSend(s.table.slots, Broadcast(s.table, fails, SLOTS).slots, fails);
  }

  lemma NoneHeld(slots: Slots)
    ensures Held(slots) == {} <==> forall i | 0 <= i < |slots| :: slots[i].None?
  {
    if i: nat :| i < |slots| && slots[i].Some? {
      HeldIn(slots, i);
    }
  }

  lemma StepKeepsInv(s: State, step: Step)
    requires Inv(s) && Enabled(s, step)
    ensures Inv(Apply(s, step))
  {
    TableStaysConsistent(s, step);
    OwnershipIsKept(s, step);
    LedgerIsKept(s, step);
    hide Consistent, Owned, Settled, Apply;
  }

  /** The counter is 0 exactly when nobody is held. */
  lemma CountIsHeld(s: State)
    requires Inv(s)
    ensures s.table.count == |Held(s.table.slots)|
    ensures s.table.count == 0 <==> Held(s.table.slots) == {}
  {
    ClientsAreDistinct(s);
    HeldCount(s.table.slots);
    hide Held, Owned, Settled;
  }

  // ---- runs ----

  ghost predicate IsRun(states: seq<State>, steps: seq<Step>) {
    && |states| == |steps| + 1
    && Inv(states[0])
    && forall i | 0 <= i < |steps| :: IsStep(states[i], steps[i], states[i + 1])
  }

  ghost predicate IsStep(s: State, step: Step, t: State) {
    Enabled(s, step) && t == Apply(s, step)
  }

  lemma {:induction false} RunKeepsInv(states: seq<State>, steps: seq<Step>, n: nat)
    requires IsRun(states, steps) && n <= |steps|
    ensures Inv(states[n])
  {
    hide Inv, Apply, Enabled;
    if n > 0 {
      RunKeepsInv(states, steps, n - 1);
      assert IsStep(states[n - 1], steps[n - 1], states[n]);
      StepKeepsInv(states[n - 1], steps[n - 1]);
    }
  }

  /**
   Under every interleaving: the counter is the number of different clients in the slots, the
   flag is set exactly when there is one, and every client ever accepted is in exactly one
   place: still in a slot, left by its own thread, lost to a failed send, or dropped.
   */
  lemma EveryClientIsAccountedFor(states: seq<State>, steps: seq<Step>, n: nat)
    requires IsRun(states, steps) && n <= |steps|
    ensures var s := states[n];
            var l, held := s.ledger, Held(s.table.slots);
            && s.table.count == |held| && (s.table.connected <==> held != {})
            && l.accepted == held + l.left + l.failed + l.dropped
            && Disjoint4(held, l.left, l.failed, l.dropped)
            && l.left == l.checking + l.fed + l.skipped
  {
    RunKeepsInv(states, steps, n);
    CountIsHeld(states[n]);
    hide IsRun, Held, Owned;
  }

  /** What is in the books stays there. */
  ghost predicate Grows(l: Ledger, m: Ledger) {
    && l.accepted <= m.accepted && l.left <= m.left && l.failed <= m.failed && l.dropped <= m.dropped
    && l.fed <= m.fed && l.skipped <= m.skipped
  }

  lemma StepGrows(s: State, step: Step)
    requires Enabled(s, step)
    ensures Grows(s.ledger, Apply(s, step).ledger)
  {
  }

  lemma {:induction false} RunGrows(states: seq<State>, steps: seq<Step>, i: nat, j: nat)
    requires IsRun(states, steps) && i <= j <= |steps|
    ensures Grows(states[i].ledger, states[j].ledger)
  {
    hide Inv, Apply, Enabled;
    if i < j {
      RunGrows(states, steps, i, j - 1);
      assert IsStep(states[j - 1], steps[j - 1], states[j]);
      StepGrows(states[j - 1], steps[j - 1]);
    }
  }

  /** Gone for good, however. */
  ghost function GoneIn(l: Ledger): set<Socket> {
    l.left + l.failed + l.dropped
  }

  /** Who is connected later: those connected now and those accepted since, less those gone by then. */
  lemma HeldLater(states: seq<State>, steps: seq<Step>, i: nat, j: nat)
    requires IsRun(states, steps) && i <= j <= |steps|
    ensures Held(states[j].table.slots) ==
            Held(states[i].table.slots) + (states[j].ledger.accepted - states[i].ledger.accepted)
            - GoneIn(states[j].ledger)
  {
    RunKeepsInv(states, steps, i);
    RunKeepsInv(states, steps, j);
    RunGrows(states, steps, i, j);
    hide IsRun, Held, Owned, Consistent;
  }

  // ---- who is removed ----

  /** A leaving thread empties the slot that holds its own socket, if any, and nothing else. */
  lemma LeaveRemovesItsOwnClient(s: State, thread: Thread, j: nat)
    requires Inv(s) && Enabled(s, Leave(thread)) && j < SLOTS
    ensures Apply(s, Leave(thread)).table.slots[j] ==
            if s.table.slots[j] == Some(thread.sock) then None else s.table.slots[j]
  {
    hide Occupied, Settled;
    if s.table.slots[j] == Some(thread.sock) {
      assert SlotHasThread(s, j);
      assert OneThreadPerSocket(s, Thread(j, thread.sock), thread);
    }
  }

  /** A client that was already taken out leaves no trace: neither table nor ledger changes. */
  lemma StaleLeaveChangesNothing(s: State, thread: Thread)
    requires Inv(s) && Enabled(s, Leave(thread))
    ensures thread.sock !in Held(s.table.slots)
      <==> Apply(s, Leave(thread)).table == s.table && Apply(s, Leave(thread)).ledger == s.ledger
  {
    hide Occupied, Settled;
    if thread.sock in Held(s.table.slots) {
      var j := SlotOf(s.table.slots, thread.sock);
      LeaveRemovesItsOwnClient(s, thread, j);
    } else if s.table.slots[thread.slot] == Some(thread.sock) {
      HeldIn(s.table.slots, thread.slot);
    }
  }

  // ---- who closes the CLI ----

  /** Step i is client c's departure from the slots, and step j its later look at the counter. */
  ghost predicate LeavesAndChecks(states: seq<State>, steps: seq<Step>, i: nat, j: nat, c: Socket)
    requires |states| == |steps| + 1
  {
    && i < j < |steps|
    && steps[i].Leave? && steps[i].thread.sock == c && c in Held(states[i].table.slots)
    && steps[j] == Check(c)
  }

  lemma LeaveTakesOut(s: State, thread: Thread)
    requires Inv(s) && Enabled(s, Leave(thread)) && thread.sock in Held(s.table.slots)
    ensures var t := Apply(s, Leave(thread));
            && Held(t.table.slots) == Held(s.table.slots) - {thread.sock}
            && thread.sock in t.ledger.checking
  {
    ClientsAreDistinct(s);
    var j := SlotOf(s.table.slots, thread.sock);
    assert SlotHasThread(s, j);
    assert OneThreadPerSocket(s, Thread(j, thread.sock), thread);
    HeldAfterLeave(s.table.slots, j);
    hide Occupied, Settled, Held;
  }

  lemma CheckFeedsIffEmpty(s: State, c: Socket)
    requires Inv(s) && Enabled(s, Check(c))
    ensures c in Apply(s, Check(c)).ledger.fed <==> Held(s.table.slots) == {}
  {
    CountIsHeld(s);
    hide Held, Owned, Consistent;
  }

  /**
   "Exit noreboot" is meant for the last client that leaves. For client c leaving at step i
   and checking at step j of any run: whether it feeds the port agrees with whether it was
   the last if and only if
   - having been the last, every client accepted since has gone again by the check;
   - not having been the last, somebody connected when it left, or since, still is.
   */
  lemma FedAgreesWithLastIff(states: seq<State>, steps: seq<Step>, i: nat, j: nat, c: Socket)
    requires IsRun(states, steps) && LeavesAndChecks(states, steps, i, j, c)
    ensures var before, after, atCheck := states[i], states[i + 1], states[j];
            var wasLast := Held(before.table.slots) == {c};
            var since := atCheck.ledger.accepted - after.ledger.accepted;
            var gone := GoneIn(atCheck.ledger);
            && (c in states[j + 1].ledger.fed <==> Held(after.table.slots) + since <= gone)
            && ((c in states[j + 1].ledger.fed <==> wasLast) <==>
                if wasLast then since <= gone else !(Held(after.table.slots) + since <= gone))
  {
    RunKeepsInv(states, steps, i);
    RunKeepsInv(states, steps, j);
    assert IsStep(states[i], steps[i], states[i + 1]);
    assert IsStep(states[j], steps[j], states[j + 1]);
    LeaveTakesOut(states[i], steps[i].thread);
    CheckFeedsIffEmpty(states[j], c);
    HeldLater(states, steps, i + 1, j);
    hide IsRun, Held, Inv, Apply, Enabled, GoneIn;
    LastIff(Held(states[i].table.slots), c);
    EmptyIff(Held(states[i + 1].table.slots), states[j].ledger.accepted - states[i + 1].ledger.accepted,
             GoneIn(states[j].ledger));
  }

  lemma LastIff(held: set<Socket>, c: Socket)
    requires c in held
    ensures held == {c} <==> held - {c} == {}
  {
    assert held == (held - {c}) + {c};
  }

  lemma EmptyIff(a: set<Socket>, b: set<Socket>, gone: set<Socket>)
    ensures a + b - gone == {} <==> a + b <= gone
    ensures a == {} ==> a + b == b
  {
    if a + b - gone == {} {
      forall x | x in a + b
        ensures x in gone
      {
        assert x !in a + b - gone;
      }
    }
  }

  /** With nothing in between, exactly the last one out closes the CLI. */
  lemma PromptCheckIsRight(states: seq<State>, steps: seq<Step>, i: nat, c: Socket)
    requires IsRun(states, steps) && LeavesAndChecks(states, steps, i, i + 1, c)
    ensures c in states[i + 2].ledger.fed <==> Held(states[i].table.slots) == {c}
  {
    RunKeepsInv(states, steps, i);
    RunKeepsInv(states, steps, i + 1);
    assert IsStep(states[i], steps[i], states[i + 1]);
    assert IsStep(states[i + 1], steps[i + 1], states[i + 2]);
    LeaveTakesOut(states[i], steps[i].thread);
    CheckFeedsIffEmpty(states[i + 1], c);
    LastIff(Held(states[i].table.slots), c);
    hide IsRun, Held, Inv, Apply, Enabled;
  }

  /** A client lost to a failed send or a drop never closes the CLI, whatever happens later. */
  lemma LostClientNeverFeeds(states: seq<State>, steps: seq<Step>, i: nat, j: nat, c: Socket)
    requires IsRun(states, steps) && i <= j <= |steps|
    requires c in states[i].ledger.failed + states[i].ledger.dropped
    ensures c !in states[j].ledger.fed && c !in states[j].ledger.checking && c !in Held(states[j].table.slots)
  {
    RunKeepsInv(states, steps, j);
    RunGrows(states, steps, i, j);
    hide IsRun, Held, Owned, Consistent;
  }

  /** The start: no client yet. */
  ghost function NoClients(): State {
    State(Table([None, None, None, None, None, None, None, None], 0, false), {}, {}, Ledger({}, {}, {}, {}, {}, {}, {}))
  }

  lemma StartIsConsistent()
    ensures Inv(NoClients())
  {
    OccupiedBounds(NoClients().table.slots);
    assert Held(NoClients().table.slots) == {};
  }

  ghost function TwoClients(): State {
    State(Table([Some(1), Some(2), None, None, None, None, None, None], 2, true),
          {Thread(0, 1), Thread(1, 2)}, {1, 2}, Ledger({1, 2}, {}, {}, {}, {}, {}, {}))
  }

  ghost function SecondFails(): seq<bool> {
    [false, true, false, false, false, false, false, false]
  }

  /** 1 leaves, 2 is lost to a failed send, 1 looks at the counter, and 2's thread ends. */
  ghost function LateSteps(): seq<Step> {
    [Accept(1), Accept(2), Leave(Thread(0, 1)), Send(SecondFails()), Check(1), Leave(Thread(1, 2))]
  }

  /**
   How it fails: client 1 leaves while 2 is connected, and 2 is then taken out by a failed
   send. 1's check feeds the port although 1 was not the last, and 2, which was, never does.
   */
  lemma LateCheckInjectsForAnother() returns (states: seq<State>)
    ensures IsRun(states, LateSteps()) && states[0] == NoClients()
    ensures Held(states[2].table.slots) == {1, 2}
    ensures states[6].ledger.fed == {1} && states[6].ledger.failed == {2} && states[6].ledger.checking == {}
  {
    StartIsConsistent();
    TwoAreAccepted();
    TwoAreHeld();
    var s0 := NoClients();
    var s1 := Apply(s0, Accept(1));
    var s2 := TwoClients();
    var s3 := Apply(s2, Leave(Thread(0, 1)));
    FailuresPerSlot();
    FailingTheSecond(s3.table);
    hide Inv, Broadcast, Occupied, SecondFails, Failing, FirstFree, NoClients, Accepted, Held;
    var s4 := Apply(s3, Send(SecondFails()));
    var s5 := Apply(s4, Check(1));
    var s6 := Apply(s5, Leave(Thread(1, 2)));
    states := [s0, s1, s2, s3, s4, s5, s6];
  }

  lemma TwoAreAccepted()
    ensures Enabled(NoClients(), Accept(1)) && Enabled(Apply(NoClients(), Accept(1)), Accept(2))
    ensures Apply(Apply(NoClients(), Accept(1)), Accept(2)) == TwoClients()
  {
    var one := Apply(NoClients(), Accept(1));
    assert NoClients().table.slots[0].None?;
    assert FirstFree(NoClients().table.slots) == Some(0);
    assert one.table.slots == [Some(1), None, None, None, None, None, None, None];
    assert one.table.slots[0].Some? && one.table.slots[1].None?;
    assert FirstFree(one.table.slots) == Some(1);
  }

  lemma FailuresPerSlot()
    ensures |SecondFails()| == SLOTS
  {
  }

  lemma TwoAreHeld()
    ensures Held(TwoClients().table.slots) == {1, 2}
  {
    var slots := TwoClients().table.slots;
    HeldIn(slots, 0);
    HeldIn(slots, 1);
  }

  lemma FailingTheSecond(t: Table)
    requires |t.slots| == SLOTS && t.slots[1] == Some(2) && t.count == 1
    ensures |SecondFails()| == SLOTS
    ensures Broadcast(t, SecondFails(), SLOTS).count == 0
    ensures Broadcast(t, SecondFails(), SLOTS).slots == t.slots[1 := None]
    ensures Failing(t.slots, SecondFails()) == {2}
  {
    var fails := SecondFails();
    assert Broadcast(t, fails, 1) == t;
    assert Broadcast(t, fails, 2) == Removed(t, 1);
    RestOfBroadcast(t, fails);
    assert fails[1] && t.slots[1].value in Failing(t.slots, fails);
  }

  lemma RestOfBroadcast(t: Table, fails: seq<bool>)
    requires |t.slots| == SLOTS && |fails| == SLOTS && forall i | 2 <= i < SLOTS :: !fails[i]
    ensures Broadcast(t, fails, SLOTS) == Broadcast(t, fails, 2)
  {
    assert Broadcast(t, fails, 4) == Broadcast(t, fails, 2);
    assert Broadcast(t, fails, 6) == Broadcast(t, fails, 4);
  }

  /**
   If failed sends or a drop empty the table, the CLI is not closed: until another client
   is accepted, no interleaving of the stale threads feeds the port.
   */
  lemma {:induction false} NoInjectionAfterDrop(states: seq<State>, steps: seq<Step>, n: nat)
    requires IsRun(states, steps) && n <= |steps|
    requires Held(states[0].table.slots) == {} && states[0].ledger.checking == {}
    requires forall i | 0 <= i < |steps| :: !steps[i].Accept?
    ensures Held(states[n].table.slots) == {} && states[n].ledger.checking == {}
    ensures states[n].ledger.fed == states[0].ledger.fed
  {
    hide Inv, Enabled, Apply, Held;
    if n > 0 {
      NoInjectionAfterDrop(states, steps, n - 1);
      RunKeepsInv(states, steps, n - 1);
      assert IsStep(states[n - 1], steps[n - 1], states[n]);
      EmptyStaysQuiet(states[n - 1], steps[n - 1]);
    }
  }

  lemma EmptyStaysQuiet(s: State, step: Step)
    requires Inv(s) && Enabled(s, step) && !step.Accept?
    requires Held(s.table.slots) == {} && s.ledger.checking == {}
    ensures var t := Apply(s, step);
            Held(t.table.slots) == {} && t.ledger.checking == {} && t.ledger.fed == s.ledger.fed
  {
    NoneHeld(s.table.slots);
    hide Occupied, Broadcast, Held, Settled;
    if step.Send? {
      SendIsExact(s, step.fails);
    } else if step.DropAll? {
      NoneHeld(Emptied(s.table).slots);
    }
  }

  /**
   Why handles must not be used twice: a thread that ends late hits the client that took
   over its slot if and only if that client got the same handle.
   */
  lemma LateThreadHitsIffHandleReused(t: Table, slot: nat, late: Socket, client: Socket)
    requires Consistent(t) && FirstFree(t.slots) == Some(slot)
    ensures Disconnected(Accepted(t, client), slot, late) == Accepted(t, client) <==> late != client
  {
  }
}
