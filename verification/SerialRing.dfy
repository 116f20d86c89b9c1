/**
 The receive and transmit rings of a TCP serial port. Every method is one critical
 section of the source (the rings are under rxLock and txLock).
 */
module SerialRing {
  import opened Common
  import opened Circular

  class TcpPort {
    const rxBuffer: array<byte>
    const txBuffer: array<byte>
    var rxHead: nat
    var rxTail: nat
    var txHead: nat
    var txTail: nat
    /** Everything tcpDataOut() has taken out of the transmit ring to send. */
    var sent: seq<byte>

    constructor (rxSize: nat, txSize: nat)
      requires rxSize > 0 && txSize > 0
      ensures Valid() && fresh(rxBuffer) && fresh(txBuffer)
      ensures rxBuffer.Length == rxSize && txBuffer.Length == txSize
      ensures Rx() == [] && Tx() == [] && sent == []
    {
      rxBuffer := new byte[rxSize](_ => 0);
      txBuffer := new byte[txSize](_ => 0);
      rxHead, rxTail, txHead, txTail, sent := 0, 0, 0, 0, [];
    }

    ghost predicate Valid()
      reads this
    {
      && rxBuffer != txBuffer
      && rxHead < rxBuffer.Length && rxTail < rxBuffer.Length
      && txHead < txBuffer.Length && txTail < txBuffer.Length
    }

    /** The bytes received and not yet read. */
    ghost function Rx(): seq<byte>
      requires Valid()
      reads this, rxBuffer
    {
      Queue(rxBuffer[..], rxHead, rxTail)
    }

    /** The bytes written and not yet taken out to send. */
    ghost function Tx(): seq<byte>
      requires Valid()
      reads this, txBuffer
    {
      Queue(txBuffer[..], txHead, txTail)
    }

    /** tcpTotalRxBytesWaiting() */
    method RxWaiting() returns (count: nat)
      requires Valid()
      ensures count == |Rx()|
    {
      count := if rxHead >= rxTail then rxHead - rxTail else rxBuffer.Length + rxHead - rxTail;
    }

    /** tcpTotalTxBytesFree() */
    method TxFree() returns (count: nat)
      requires Valid()
      ensures count == txBuffer.Length - 1 - |Tx()|
    {
      var used := if txHead >= txTail then txHead - txTail else txBuffer.Length + txHead - txTail;
      count := txBuffer.Length - 1 - used;
    }

    /** isTcpTransmitBufferEmpty() */
    method TxEmpty() returns (empty: bool)
      requires Valid()
      ensures empty <==> Tx() == []
    {
      empty := txTail == txHead;
    }

    /** tcpDataIn(): append what fits, drop the rest. */
    method DataIn(data: seq<byte>)
      requires Valid()
      modifies this`rxHead, rxBuffer
      ensures Valid()
      ensures Rx() == old(Rx()) + data[..Min(|data|, rxBuffer.Length - 1 - |old(Rx())|)]
    {
      hide Window;
      ghost var room := rxBuffer.Length - 1 - |Rx()|;
      var i := 0;
      while i < |data|
        invariant Valid() && 0 <= i <= |data| && i <= room
        invariant |Rx()| == rxBuffer.Length - 1 - (room - i)
        invariant Rx() == old(Rx()) + data[..i]
      {
        var used := if rxHead >= rxTail then rxHead - rxTail else rxBuffer.Length - rxTail + rxHead;
        if used >= rxBuffer.Length - 1 {
          break;
        }
        ghost var before := rxBuffer[..];
        PushExtends(before, rxHead, rxTail, data[i]);
        rxBuffer[rxHead] := data[i];
        assert rxBuffer[..] == before[rxHead := data[i]];
        rxHead := if rxHead + 1 >= rxBuffer.Length then 0 else rxHead + 1;
        assert data[..i + 1] == data[..i] + [data[i]];
        i := i + 1;
      }
    }

    /**
     tcpRead() does not check: on a ring with data it takes the oldest byte, on an empty
     one it returns a stale byte and leaves the ring looking full of stale bytes.
     */
    method Read() returns (ch: byte)
      requires Valid()
      modifies this`rxTail
      ensures Valid()
      ensures old(Rx()) != [] ==> ch == old(Rx())[0] && Rx() == old(Rx())[1..]
      ensures old(Rx()) == [] ==> |Rx()| == rxBuffer.Length - 1
    {
      if rxHead != rxTail {
        PopTakesOldest(rxBuffer[..], rxHead, rxTail);
      }
      ch := rxBuffer[rxTail];
      rxTail := if rxTail + 1 >= rxBuffer.Length then 0 else rxTail + 1;
    }

    /** One byte into the transmit ring, as tcpWrite() and tcpWriteBuf() do it: without looking whether it is full. */
    method PutTx(ch: byte)
      requires Valid()
      modifies this`txHead, txBuffer
      ensures Valid()
      ensures Tx() == if |old(Tx())| < txBuffer.Length - 1 then old(Tx()) + [ch] else []
    {
      ghost var before := txBuffer[..];
      if Used(txHead, txTail, txBuffer.Length) < txBuffer.Length - 1 {
        PushExtends(before, txHead, txTail, ch);
      } else {
        PushOntoFullForgets(before, txHead, txTail, ch);
      }
      txBuffer[txHead] := ch;
      assert txBuffer[..] == before[txHead := ch];
      txHead := if txHead + 1 >= txBuffer.Length then 0 else txHead + 1;
    }

    /** tcpDataOut(): drain the transmit ring in at most two chunks. */
    method DataOut() returns (data: seq<byte>)
      requires Valid()
      modifies this`txTail, this`sent
      ensures Valid() && Tx() == []
      ensures data == old(Tx()) && sent == old(sent) + data
    {
      QueueInChunks(txBuffer[..], txHead, txTail);
      data := [];
      if txHead < txTail {
        data := data + txBuffer[txTail..];
        txTail := 0;
      }
      if txHead > txTail {
        data := data + txBuffer[txTail..txHead];
      }
      txTail := txHead;
      sent := sent + data;
    }

    /** tcpWrite() */
    method Write(ch: byte)
      requires Valid()
      modifies this`txHead, this`txTail, this`sent, txBuffer
      ensures Valid() && Tx() == []
      ensures sent == old(sent) + if |old(Tx())| < txBuffer.Length - 1 then old(Tx()) + [ch] else []
    {
      PutTx(ch);
      var _ := DataOut();
    }

    /** tcpWriteBuf(): all of `data` into the ring, then out. */
    method WriteBuf(data: seq<byte>)
      requires Valid()
      modifies this`txHead, this`txTail, this`sent, txBuffer
      ensures Valid() && Tx() == []
      ensures sent == old(sent) + PutAll(old(Tx()), data, txBuffer.Length)
    {
      for i := 0 to |data|
        invariant Valid() && sent == old(sent)
        invariant Tx() == PutAll(old(Tx()), data[..i], txBuffer.Length)
      {
        assert data[..i + 1][..i] == data[..i];
        PutTx(data[i]);
      }
      assert data[..|data|] == data;
      var _ := DataOut();
    }

    /** Any sequence of arriving data and of reads that first ask whether a byte is waiting. */
    method RunRx(ops: seq<RxOp>) returns (read: seq<byte>)
      requires Valid()
      modifies this`rxHead, this`rxTail, rxBuffer
      ensures Valid()
      ensures read == RxRun(RxTrace(old(Rx()), old(Rx()), []), ops, rxBuffer.Length).read
      ensures Rx() == RxRun(RxTrace(old(Rx()), old(Rx()), []), ops, rxBuffer.Length).queue
    {
      hide RxRun;
      ghost var start := RxTrace(Rx(), Rx(), []);
      ghost var accepted := Rx();
      read := [];
      RxRunNone(start, rxBuffer.Length);
      for i := 0 to |ops|
        invariant Valid()
        invariant RxRun(start, ops[..i], rxBuffer.Length) == RxTrace(Rx(), accepted, read)
      {
        RxRunOneMore(start, ops, i, rxBuffer.Length);
        match ops[i]
        case In(data) =>
          accepted := accepted + data[..Min(|data|, rxBuffer.Length - 1 - |Rx()|)];
          DataIn(data);
        case Out =>
          var waiting := RxWaiting();
          if waiting > 0 {
            var ch := Read();
            read := read + [ch];
          }
      }
      assert ops[..|ops|] == ops;
    }
  }

  /** The transmit queue after `data` is put byte by byte into a ring of `size` slots. */
  function PutAll(queue: seq<byte>, data: seq<byte>, size: nat): seq<byte>
    requires size > 0
  {
    if data == [] then queue
    else
      var q := PutAll(queue, data[..|data| - 1], size);
      if |q| < size - 1 then q + [data[|data| - 1]] else []
  }

  /** Putting goes round the ring: what is left is the end of the stream, in whole-ring losses. */
  lemma {:induction false} PutAllKeepsTheEnd(queue: seq<byte>, data: seq<byte>, size: nat)
    requires size > 0 && |queue| < size
    ensures var total := queue + data;
            |PutAll(queue, data, size)| == |total| % size
            && PutAll(queue, data, size) == total[|total| - |total| % size..]
  {
    var total := queue + data;
    if data == [] {
      DivModIs(|queue|, 0, size, |queue|);
      assert total == queue;
    } else {
      var init, last := data[..|data| - 1], data[|data| - 1];
      PutAllKeepsTheEnd(queue, init, size);
      assert total == (queue + init) + [last];
      NextMod(|queue + init|, size);
      PutOneKeepsTheEnd(queue + init, last, size);
    }
  }

  lemma PutOneKeepsTheEnd(stream: seq<byte>, x: byte, size: nat)
    requires size > 0
    ensures |stream| >= |stream| % size
    ensures stream[|stream| - |stream| % size..] + [x] == (stream + [x])[|stream| - |stream| % size..]
  {
    var r := |stream| % size;
    assert |stream| == |stream| / size * size + r;
    if |stream| < size {
      DivModIs(|stream|, 0, size, |stream|);
    }
  }

  lemma NextMod(n: nat, size: nat)
    requires size > 0
    ensures (n + 1) % size == if n % size + 1 == size then 0 else n % size + 1
  {
    var q, r := n / size, n % size;
    assert n == q * size + r;
    if r + 1 == size {
      assert n + 1 == (q + 1) * size + 0;
      DivModIs(n + 1, q + 1, size, 0);
    } else {
      DivModIs(n + 1, q, size, r + 1);
    }
  }

  /**
   A batch write on an empty ring sends exactly the batch if it is smaller than the ring,
   and never otherwise: the caller's check of the free space is necessary and sufficient.
   */
  lemma WriteBufSendsAllIffItFits(data: seq<byte>, size: nat)
    requires size > 0
    ensures PutAll([], data, size) == data <==> |data| < size
  {
    PutAllKeepsTheEnd([], data, size);
    assert [] + data == data;
    if |data| < size {
      DivModIs(|data|, 0, size, |data|);
    } else {
      assert |data| % size < size;
    }
  }

  // ---- runs of the receive ring ----

  datatype RxOp = In(data: seq<byte>) | Out

  /** The receive queue, the bytes accepted so far and the bytes read so far. */
  datatype RxTrace = RxTrace(queue: seq<byte>, accepted: seq<byte>, read: seq<byte>)

  /** What DataIn() and a Read() after a successful RxWaiting() do to the queue. */
  function RxStep(t: RxTrace, op: RxOp, size: nat): RxTrace
    requires |t.queue| < size
  {
    match op
    case In(data) =>
      var part := data[..Min(|data|, size - 1 - |t.queue|)];
      RxTrace(t.queue + part, t.accepted + part, t.read)
    case Out =>
      if t.queue == [] then t else RxTrace(t.queue[1..], t.accepted, t.read + [t.queue[0]])
  }

  function RxRun(t: RxTrace, ops: seq<RxOp>, size: nat): RxTrace
    requires |t.queue| < size
    decreases |ops|
  {
    if ops == [] then t else RxRun(RxStep(t, ops[0], size), ops[1..], size)
  }

  lemma RxRunNone(t: RxTrace, size: nat)
    requires |t.queue| < size
    ensures RxRun(t, [], size) == t
  {
  }

  lemma {:induction false} RxRunLast(t: RxTrace, ops: seq<RxOp>, last: RxOp, size: nat)
    requires |t.queue| < size
    ensures |RxRun(t, ops, size).queue| < size
    ensures RxRun(t, ops + [last], size) == RxStep(RxRun(t, ops, size), last, size)
    decreases |ops|
  {
    if ops == [] {
      assert ops + [last] == [last] && [last][1..] == [];
    } else {
      assert (ops + [last])[1..] == ops[1..] + [last];
      RxRunLast(RxStep(t, ops[0], size), ops[1..], last, size);
    }
  }

  lemma RxRunOneMore(t: RxTrace, ops: seq<RxOp>, i: nat, size: nat)
    requires |t.queue| < size && i < |ops|
    ensures |RxRun(t, ops[..i], size).queue| < size
    ensures RxRun(t, ops[..i + 1], size) == RxStep(RxRun(t, ops[..i], size), ops[i], size)
  {
    RxRunLast(t, ops[..i], ops[i], size);
    assert ops[..i + 1] == ops[..i] + [ops[i]];
  }

  /** Over any run the bytes read are the bytes accepted, in order; the difference is the queue. */
  lemma {:induction false} RxRunIsFifo(t: RxTrace, ops: seq<RxOp>, size: nat)
    requires |t.queue| < size && t.accepted == t.read + t.queue
    ensures var u := RxRun(t, ops, size);
            |u.queue| < size && u.accepted == u.read + u.queue && t.read <= u.read && t.accepted <= u.accepted
    decreases |ops|
  {
    if ops != [] {
      var u := RxStep(t, ops[0], size);
      if ops[0].Out? && t.queue != [] {
        ShiftHead(t.read, t.queue);
      } else if ops[0].In? {
        var part := ops[0].data[..Min(|ops[0].data|, size - 1 - |t.queue|)];
        assert t.read + (t.queue + part) == (t.read + t.queue) + part;
      }
      RxRunIsFifo(u, ops[1..], size);
    }
  }
}
