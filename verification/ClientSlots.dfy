/**
 The clients of one serial port: eight slots, a counter and a connected flag, changed by the
 accept loop, by each client's own thread when it ends, by a failed send on the flight
 thread, and by a drop of all clients. When a client leaves, its thread looks at the
 counter again after releasing the lock and, if it is 0, feeds "exit noreboot" to the port.
 */
module ClientSlots {
  import opened Common

  const SLOTS := 8

  type Socket = nat

  /** None stands for INVALID_SOCKET. */
  type Slots = seq<Option<Socket>>

  datatype Table = Table(slots: Slots, count: nat, connected: bool)

  function Occupied(slots: Slots): nat {
    if slots == [] then 0
    else Occupied(slots[..|slots| - 1]) + if slots[|slots| - 1].Some? then 1 else 0
  }

  function One(slot: Option<Socket>): nat {
    if slot.Some? then 1 else 0
  }

  lemma {:induction false} OccupiedUpdate(slots: Slots, i: nat, v: Option<Socket>)
    requires i < |slots|
    ensures Occupied(slots[i := v]) + One(slots[i]) == Occupied(slots) + One(v)
  {
    var n := |slots| - 1;
    if i == n {
      assert slots[i := v][..n] == slots[..n];
    } else {
      OccupiedUpdate(slots[..n], i, v);
      assert slots[i := v][..n] == slots[..n][i := v];
    }
  }

  lemma {:induction false} OccupiedBounds(slots: Slots)
    ensures Occupied(slots) <= |slots|
    ensures Occupied(slots) == 0 <==> forall i | 0 <= i < |slots| :: slots[i].None?
    ensures Occupied(slots) == |slots| <==> forall i | 0 <= i < |slots| :: slots[i].Some?
  {
    if slots == [] {
    } else {
      var front := slots[..|slots| - 1];
      OccupiedBounds(front);
      assert slots == front + [slots[|slots| - 1]];
    }
  }

  // ---- the operations under the lock ----

  /** The lowest free slot, if any. */
  function FirstFree(slots: Slots): (r: Option<nat>)
    ensures r.Some? ==> r.value < |slots| && slots[r.value].None?
                        && forall j | 0 <= j < r.value :: slots[j].Some?
    ensures r.None? ==> forall j | 0 <= j < |slots| :: slots[j].Some?
  {
    FreeFrom(slots, 0)
  }

  function FreeFrom(slots: Slots, i: nat): (r: Option<nat>)
    requires i <= |slots|
    ensures r.Some? ==> i <= r.value < |slots| && slots[r.value].None?
                        && forall j | i <= j < r.value :: slots[j].Some?
    ensures r.None? ==> forall j | i <= j < |slots| :: slots[j].Some?
    decreases |slots| - i
  {
    if i == |slots| then None else if slots[i].None? then Some(i) else FreeFrom(slots, i + 1)
  }

  function Accepted(t: Table, client: Socket): Table {
    var slot := FirstFree(t.slots);
    if slot.None? then t else Table(t.slots[slot.value := Some(client)], t.count + 1, true)
  }

  /** The bookkeeping shared by a disconnect and a failed send. */
  function Removed(t: Table, slot: nat): Table
    requires slot < |t.slots|
  {
    var count := if t.count > 0 then t.count - 1 else 0;
    Table(t.slots[slot := None], count, if count == 0 then false else t.connected)
  }

  function Disconnected(t: Table, slot: nat, sock: Socket): Table
    requires slot < |t.slots|
  {
    if t.slots[slot] == Some(sock) then Removed(t, slot) else t
  }

  /** The broadcast has visited the first n slots; fails[i] says whether send() to slot i failed. */
  function Broadcast(t: Table, fails: seq<bool>, n: nat): (r: Table)
    requires n <= |t.slots| && n <= |fails|
    ensures |r.slots| == |t.slots|
    ensures forall i | n <= i < |t.slots| :: r.slots[i] == t.slots[i]
  {
    if n == 0 then t
    else
      var before := Broadcast(t, fails, n - 1);
      if before.slots[n - 1].Some? && fails[n - 1] then Removed(before, n - 1) else before
  }

  function Emptied(t: Table): Table {
    Table(seq(|t.slots|, _ => None), 0, false)
  }

  // ---- the invariant of the table ----

  /** The counter counts, and the flag says whether anyone is there. */
  ghost predicate Consistent(t: Table) {
    && |t.slots| == SLOTS
    && t.count == Occupied(t.slots)
    && (t.connected <==> t.count > 0)
  }

  lemma AcceptedIsConsistent(t: Table, client: Socket)
    requires Consistent(t)
    ensures Consistent(Accepted(t, client))
    ensures Accepted(t, client) == t <==> t.count == 8
    ensures t.count < 8 ==> Some(client) in Accepted(t, client).slots && Accepted(t, client).count == t.count + 1
  {
    OccupiedBounds(t.slots);
    var slot := FirstFree(t.slots);
    if slot.Some? {
      OccupiedUpdate(t.slots, slot.value, Some(client));
      assert Accepted(t, client).slots[slot.value] == Some(client);
    }
  }

  /** Removing an occupied slot: the guard against a zero counter is never needed. */
  lemma RemovedIsConsistent(t: Table, slot: nat)
    requires Consistent(t) && slot < SLOTS && t.slots[slot].Some?
    ensures Consistent(Removed(t, slot)) && t.count > 0 && Removed(t, slot).count == t.count - 1
  {
    OccupiedUpdate(t.slots, slot, None);
  }

  lemma {:induction false} BroadcastIsConsistent(t: Table, fails: seq<bool>, n: nat)
    requires Consistent(t) && n <= SLOTS && |fails| == SLOTS
    ensures Consistent(Broadcast(t, fails, n))
    ensures forall i | 0 <= i < n ::
              Broadcast(t, fails, n).slots[i] == if fails[i] then None else t.slots[i]
  {
    if n > 0 {
      BroadcastIsConsistent(t, fails, n - 1);
      var before := Broadcast(t, fails, n - 1);
      if before.slots[n - 1].Some? && fails[n - 1] {
        RemovedIsConsistent(before, n - 1);
      }
    }
  }

  lemma EmptiedIsConsistent(t: Table)
    requires |t.slots| == SLOTS
    ensures Consistent(Emptied(t))
  {
    OccupiedBounds(Emptied(t).slots);
  }

  // ---- in place ----

  class ClientTable {
    const sockets: array<Option<Socket>>
    var clientCount: nat
    var connected: bool

    ghost function View(): Table
      reads this, sockets
    {
      Table(sockets[..], clientCount, connected)
    }

    constructor ()
      ensures fresh(sockets) && Consistent(View()) && View().count == 0
    {
      sockets := new Option<Socket>[SLOTS](_ => None);
      clientCount, connected := 0, false;
      new;
      OccupiedBounds(sockets[..]);
    }

    /** The locked part of the accept loop; no slot means the client is turned away. */
    method Accept(client: Socket) returns (slot: Option<nat>)
      requires Consistent(View())
      modifies this, sockets
      ensures View() == Accepted(old(View()), client) && Consistent(View())
      ensures slot == FirstFree(old(sockets[..]))
    {
      AcceptedIsConsistent(View(), client);
      slot := None;
      var i := 0;
      while i < SLOTS
        invariant 0 <= i <= SLOTS
        invariant FreeFrom(sockets[..], 0) == FreeFrom(sockets[..], i)
      {
        if sockets[i].None? {
          slot := Some(i);
          break;
        }
        i := i + 1;
      }
      if slot.Some? {
        sockets[slot.value] := Some(client);
        clientCount := clientCount + 1;
        connected := true;
      }
    }

    /** Takes a client out of an occupied slot. */
    method Remove(slot: nat)
      requires Consistent(View()) && slot < SLOTS && sockets[slot].Some?
      modifies this, sockets
      ensures View() == Removed(old(View()), slot) && Consistent(View())
    {
      RemovedIsConsistent(View(), slot);
      sockets[slot] := None;
      if clientCount > 0 {
        clientCount := clientCount - 1;
      }
      if clientCount == 0 {
        connected := false;
      }
      assert sockets[..] == old(sockets[..])[slot := None];
    }

    /** The locked part of tcpClientDisconnect(). */
    method Disconnect(slot: nat, sock: Socket) returns (wasActive: bool)
      requires Consistent(View()) && slot < SLOTS
      modifies this, sockets
      ensures View() == Disconnected(old(View()), slot, sock) && Consistent(View())
      ensures wasActive <==> old(sockets[slot]) == Some(sock)
    {
      wasActive := false;
      if sockets[slot] == Some(sock) {
        Remove(slot);
        wasActive := true;
      }
    }

    /** The client loop of tcpDataOut(). */
    method SendToAll(fails: seq<bool>)
      requires Consistent(View()) && |fails| == SLOTS
      modifies this, sockets
      ensures View() == Broadcast(old(View()), fails, SLOTS) && Consistent(View())
    {
      var i := 0;
      while i < SLOTS
        invariant 0 <= i <= SLOTS
        invariant View() == Broadcast(old(View()), fails, i) && Consistent(View())
      {
        if sockets[i].Some? && fails[i] {
          Remove(i);
        }
        i := i + 1;
      }
    }

    /** serialTcpDropClients() for one port. */
    method DropAll()
      requires sockets.Length == SLOTS
      modifies this, sockets
      ensures View() == Emptied(old(View())) && Consistent(View())
    {
      EmptiedIsConsistent(View());
      var i := 0;
      while i < SLOTS
        invariant 0 <= i <= SLOTS
        invariant forall k | 0 <= k < i :: sockets[k] == None
      {
        if sockets[i].Some? {
          sockets[i] := None;
        }
        i := i + 1;
      }
      clientCount, connected := 0, false;
      assert sockets[..] == Emptied(old(View())).slots;
    }
  }
}
