/**
 The forwarding loop between a WebSocket client and the MSP TCP port. Bytes read from TCP
 go out in binary frames; payloads of frames read from the client go to TCP. The scheduler
 (select() and how much recv() returns) is arbitrary.
 */
module WsBridge {
  import opened Common
  import opened WsFrame
  import opened WsSocket

  const TCP_CHUNK := 4096

  /** The two peers' remaining input, what was sent to each so far, and whether the loop ended. */
  datatype Link = Link(wsIn: seq<byte>, tcpIn: seq<byte>, wsOut: seq<byte>, tcpOut: seq<byte>, over: bool)

  /** What one select() reported: how many bytes recv() on TCP returns if it is ready, and whether the client is. */
  datatype Round = Round(tcp: Option<nat>, ws: bool)

  /** recv() returns no more than asked for and no more than there is; 0 ends the session. */
  function Received(n: nat, tcpIn: seq<byte>): (k: nat)
    ensures k <= |tcpIn| && k <= TCP_CHUNK
  {
    Min(Min(n, TCP_CHUNK), |tcpIn|)
  }

  function CarryTcp(l: Link, n: nat): Link {
    var k := Received(n, l.tcpIn);
    if k == 0 then l.(over := true)
    else l.(tcpIn := l.tcpIn[k..], wsOut := l.wsOut + Encode(Outgoing(2, l.tcpIn[..k])))
  }

  function CarryFrame(l: Link): Link {
    var p := Parse(l.wsIn);
    if p.None? then l.(over := true)
    else
      ParsedWasEncoded(l.wsIn);
      var f := p.value.frame;
      if f.Opcode() == 8 then l.(over := true)
      else l.(wsIn := l.wsIn[p.value.size..], wsOut := l.wsOut + Reply(f), tcpOut := l.tcpOut + f.payload)
  }

  /** The TCP half of a round. */
  function TcpHalf(l: Link, r: Round): Link {
    if r.tcp.Some? then CarryTcp(l, r.tcp.value) else l
  }

  function RoundStep(l: Link, r: Round): Link {
    if l.over then l
    else
      var m := TcpHalf(l, r);
      if r.ws && !m.over then CarryFrame(m) else m
  }

  function Run(l: Link, rounds: seq<Round>): Link
    decreases |rounds|
  {
    if rounds == [] then l else RoundStep(Run(l, rounds[..|rounds| - 1]), rounds[|rounds| - 1])
  }

  // ---- frames on the wire ----

  type WireFrame = f: Frame | Fits(f) witness Frame(0, Len7, None, [])

  function EncodeAll(fs: seq<WireFrame>): seq<byte> {
    if fs == [] then [] else EncodeAll(fs[..|fs| - 1]) + Encode(fs[|fs| - 1])
  }

  /** The payloads one after another. */
  function Payloads(fs: seq<WireFrame>): seq<byte> {
    if fs == [] then [] else Payloads(fs[..|fs| - 1]) + fs[|fs| - 1].payload
  }

  /** The frames with a given opcode. */
  function Chosen(fs: seq<WireFrame>, opcode: byte): seq<WireFrame> {
    if fs == [] then []
    else Chosen(fs[..|fs| - 1], opcode) + if fs[|fs| - 1].Opcode() == opcode then [fs[|fs| - 1]] else []
  }

  /** Every frame a reader would find, in order. */
  function ParseAll(s: seq<byte>): seq<WireFrame>
    decreases |s|
  {
    var p := Parse(s);
    if p.None? then []
    else
      ParsedWasEncoded(s);
      [p.value.frame] + ParseAll(s[p.value.size..])
  }

  lemma Snoc(fs: seq<WireFrame>, f: WireFrame)
    ensures EncodeAll(fs + [f]) == EncodeAll(fs) + Encode(f)
    ensures Payloads(fs + [f]) == Payloads(fs) + f.payload
    ensures forall c: byte :: Chosen(fs + [f], c) == Chosen(fs, c) + if f.Opcode() == c then [f] else []
  {
    assert (fs + [f])[..|fs|] == fs;
  }

  lemma {:induction false} EncodeFront(f: WireFrame, fs: seq<WireFrame>)
    ensures EncodeAll([f] + fs) == Encode(f) + EncodeAll(fs)
  {
    hide Encode;
    if fs == [] {
      Snoc([], f);
      assert [] + [f] == [f] + fs;
    } else {
      var front, last := fs[..|fs| - 1], fs[|fs| - 1];
      EncodeFront(f, front);
      Snoc([f] + front, last);
      assert ([f] + front) + [last] == [f] + fs;
    }
  }

  /** A reader gets back exactly the frames that were sent. */
  lemma {:induction false} ParseAllInverts(fs: seq<WireFrame>)
    ensures ParseAll(EncodeAll(fs)) == fs
  {
    hide Parse, Encode;
    if fs == [] {
      NoFrame([]);
    } else {
      EncodeFront(fs[0], fs[1..]);
      HeadAndTail(fs);
      var rest := EncodeAll(fs[1..]);
      ParseReadsEncoded(fs[0], rest);
      assert (Encode(fs[0]) + rest)[|Encode(fs[0])|..] == rest;
      ParseAllInverts(fs[1..]);
    }
  }

  /** A byte stream can be cut into frames in one way only. */
  lemma {:induction false} FramingIsUnique(fs: seq<WireFrame>, gs: seq<WireFrame>, x: seq<byte>, y: seq<byte>)
    requires EncodeAll(fs) + x == EncodeAll(gs) + y && |fs| <= |gs|
    ensures fs == gs[..|fs|]
    decreases |fs|
  {
    hide Encode;
    if fs == [] {
    } else {
      EncodeFront(fs[0], fs[1..]);
      EncodeFront(gs[0], gs[1..]);
      HeadAndTail(fs);
      HeadAndTail(gs);
      Reassociate(Encode(fs[0]), EncodeAll(fs[1..]), x);
      Reassociate(Encode(gs[0]), EncodeAll(gs[1..]), y);
      EncodingsArePrefixFree(fs[0], gs[0], EncodeAll(fs[1..]) + x, EncodeAll(gs[1..]) + y);
      FramingIsUnique(fs[1..], gs[1..], x, y);
      assert gs[..|fs|] == [gs[0]] + gs[1..][..|fs| - 1];
    }
  }

  lemma Reassociate(a: seq<byte>, b: seq<byte>, c: seq<byte>)
    ensures (a + b) + c == a + (b + c)
  {
  }

  // ---- what the rounds read and send ----

  /** The frames whose payload a round forwards. */
  function ReadIn(l: Link, r: Round): seq<WireFrame> {
    var m := TcpHalf(l, r);
    if l.over || m.over || !r.ws || Parse(m.wsIn).None? then []
    else
      ParsedWasEncoded(m.wsIn);
      var f := Parse(m.wsIn).value.frame;
      if f.Opcode() == 8 then [] else [f]
  }

  /** The frames a round sends: a binary one for TCP bytes, a pong for a ping. */
  function SentIn(l: Link, r: Round): seq<WireFrame> {
    var chunk := if !l.over && r.tcp.Some? then l.tcpIn[..Received(r.tcp.value, l.tcpIn)] else [];
    var read := ReadIn(l, r);
    (if chunk == [] then [] else [Outgoing(2, chunk)])
    + (if read != [] && read[0].Opcode() == 9 then [Outgoing(10, read[0].payload)] else [])
  }

  function FramesRead(l: Link, rounds: seq<Round>): seq<WireFrame>
    decreases |rounds|
  {
    if rounds == [] then []
    else
      var front := rounds[..|rounds| - 1];
      FramesRead(l, front) + ReadIn(Run(l, front), rounds[|rounds| - 1])
  }

  function FramesSent(l: Link, rounds: seq<Round>): seq<WireFrame>
    decreases |rounds|
  {
    if rounds == [] then []
    else
      var front := rounds[..|rounds| - 1];
      FramesSent(l, front) + SentIn(Run(l, front), rounds[|rounds| - 1])
  }

  /** Link m is link l after reading and sending these frames. */
  ghost predicate Carried(l: Link, m: Link, read: seq<WireFrame>, sent: seq<WireFrame>) {
    && l.wsIn == EncodeAll(read) + m.wsIn
    && m.tcpOut == l.tcpOut + Payloads(read)
    && m.wsOut == l.wsOut + EncodeAll(sent)
    && l.tcpIn == Payloads(Chosen(sent, 2)) + m.tcpIn
    && PongsMatch(read, sent)
    && Chosen(read, 8) == []
  }

  /** The pongs sent carry the payloads of the pings read, in order. */
  ghost predicate PongsMatch(read: seq<WireFrame>, sent: seq<WireFrame>) {
    var pings, pongs := Chosen(read, 9), Chosen(sent, 10);
    |pings| == |pongs| && forall i | 0 <= i < |pings| :: pongs[i].payload == pings[i].payload
  }

  lemma TcpHalfCarries(l: Link, m: Link, read: seq<WireFrame>, sent: seq<WireFrame>, n: nat)
    requires Carried(l, m, read, sent) && !m.over && Received(n, m.tcpIn) > 0
    ensures Carried(l, CarryTcp(m, n), read, sent + [Outgoing(2, m.tcpIn[..Received(n, m.tcpIn)])])
  {
    hide Encode, EncodeAll, Payloads, Chosen, Received;
    var chunk := m.tcpIn[..Received(n, m.tcpIn)];
    var f: WireFrame := Outgoing(2, chunk);
    Snoc(sent, f);
    Snoc(Chosen(sent, 2), f);
    Reassociate(l.wsOut, EncodeAll(sent), Encode(f));
    Reassociate(Payloads(Chosen(sent, 2)), chunk, m.tcpIn[|chunk|..]);
    assert m.tcpIn == chunk + m.tcpIn[|chunk|..];
  }

  /** What taking a frame does to the frames read and sent. */
  lemma FrameCarries(l: Link, m: Link, read: seq<WireFrame>, sent: seq<WireFrame>, f: WireFrame)
    requires Carried(l, m, read, sent) && !m.over
    requires Parse(m.wsIn).Some? && Parse(m.wsIn).value.frame == f && f.Opcode() != 8
    ensures Carried(l, CarryFrame(m), read + [f],
                    sent + if f.Opcode() == 9 then [Outgoing(10, f.payload)] else [])
  {
    hide Encode, EncodeAll, Payloads, Chosen, Parse;
    ParsedWasEncoded(m.wsIn);
    var size := Parse(m.wsIn).value.size;
    Snoc(read, f);
    assert m.wsIn == Encode(f) + m.wsIn[size..];
    Reassociate(EncodeAll(read), Encode(f), m.wsIn[size..]);
    Reassociate(l.tcpOut, Payloads(read), f.payload);
    if f.Opcode() == 9 {
      var pong: WireFrame := Outgoing(10, f.payload);
      Snoc(sent, pong);
      Reassociate(l.wsOut, EncodeAll(sent), Encode(pong));
      assert Chosen(sent, 2) + [] == Chosen(sent, 2);
    } else {
      assert sent + [] == sent && m.wsOut + [] == m.wsOut;
      assert Chosen(read, 9) + [] == Chosen(read, 9);
    }
    assert Chosen(read, 8) + [] == Chosen(read, 8);
  }

  lemma StepCarries(l: Link, m: Link, read: seq<WireFrame>, sent: seq<WireFrame>, r: Round)
    requires Carried(l, m, read, sent)
    ensures Carried(l, RoundStep(m, r), read + ReadIn(m, r), sent + SentIn(m, r))
  {
    hide Carried, Encode, EncodeAll, Payloads, Chosen, Parse, Reply, Received, CarryFrame;
    if m.over {
      assert read + [] == read && sent + ([] + []) == sent;
      return;
    }
    var half := TcpHalf(m, r);
    var sent1 := sent;
    if r.tcp.Some? && Received(r.tcp.value, m.tcpIn) > 0 {
      TcpHalfCarries(l, m, read, sent, r.tcp.value);
      sent1 := sent + [Outgoing(2, m.tcpIn[..Received(r.tcp.value, m.tcpIn)])];
    }
    EndedIsCarried(l, m, read, sent);
    assert Carried(l, half, read, sent1);
    EndedIsCarried(l, half, read, sent1);
    if ReadIn(m, r) != [] {
      FrameCarries(l, half, read, sent1, ReadIn(m, r)[0]);
      assert sent + SentIn(m, r) ==
        sent1 + if ReadIn(m, r)[0].Opcode() == 9 then [Outgoing(10, ReadIn(m, r)[0].payload)] else [];
    } else {
      EndsIfNothingRead(m, r);
      assert read + [] == read;
      assert sent + SentIn(m, r) == sent1;
    }
  }

  lemma EndsIfNothingRead(m: Link, r: Round)
    requires !m.over && ReadIn(m, r) == []
    ensures RoundStep(m, r) in {TcpHalf(m, r), TcpHalf(m, r).(over := true)}
  {
    hide Parse, CarryTcp;
  }

  lemma EndedIsCarried(l: Link, m: Link, read: seq<WireFrame>, sent: seq<WireFrame>)
    requires Carried(l, m, read, sent)
    ensures Carried(l, m.(over := true), read, sent)
  {
  }

  /** Over any run, whatever select() and recv() do, the link has carried exactly these frames. */
  lemma {:induction false} RunCarries(l: Link, rounds: seq<Round>)
    ensures Carried(l, Run(l, rounds), FramesRead(l, rounds), FramesSent(l, rounds))
    decreases |rounds|
  {
    hide Carried, RoundStep, ReadIn, SentIn;
    if rounds == [] {
      NothingCarried(l);
    } else {
      var front, r := rounds[..|rounds| - 1], rounds[|rounds| - 1];
      RunCarries(l, front);
      StepCarries(l, Run(l, front), FramesRead(l, front), FramesSent(l, front), r);
    }
  }

  lemma NothingCarried(l: Link)
    ensures Carried(l, l, [], [])
  {
  }

  // ---- the bridge preserves both streams ----

  /**
   TCP to WebSocket: for every way recv() cuts the stream, a reader of the WebSocket side
   finds frames whose binary payloads concatenate to exactly the TCP bytes taken so far.
   */
  lemma TcpStreamSurvives(l: Link, rounds: seq<Round>)
    requires l.wsOut == []
    ensures var m := Run(l, rounds);
            l.tcpIn == Payloads(Chosen(ParseAll(m.wsOut), 2)) + m.tcpIn
  {
    hide Encode, Parse, Payloads, Chosen, Run, FramesRead, FramesSent, EncodeAll, ParseAll;
    RunCarries(l, rounds);
    ParseAllInverts(FramesSent(l, rounds));
    assert [] + EncodeAll(FramesSent(l, rounds)) == EncodeAll(FramesSent(l, rounds));
  }

  /**
   WebSocket to TCP: for every framing of the client's stream (length forms, masks,
   fragments), the frames read are its first frames up to a close, and TCP got their
   payloads, in order and nothing else.
   */
  lemma FramesReachTcp(l: Link, rounds: seq<Round>, fs: seq<WireFrame>, tail: seq<byte>)
    requires l.wsIn == EncodeAll(fs) + tail && |FramesRead(l, rounds)| <= |fs|
    ensures var k := |FramesRead(l, rounds)|;
            && Chosen(fs[..k], 8) == []
            && Run(l, rounds).tcpOut == l.tcpOut + Payloads(fs[..k])
            && EncodeAll(fs) + tail == EncodeAll(fs[..k]) + Run(l, rounds).wsIn
  {
    hide Encode, Parse, Payloads, Chosen, Run, FramesRead, FramesSent, EncodeAll;
    RunCarries(l, rounds);
    FramingIsUnique(FramesRead(l, rounds), fs, Run(l, rounds).wsIn, tail);
  }

  function WsRounds(rounds: seq<Round>): nat {
    if rounds == [] then 0 else WsRounds(rounds[..|rounds| - 1]) + if rounds[|rounds| - 1].ws then 1 else 0
  }

  /** While the session lasts, every round in which the client was ready has read one frame. */
  lemma {:induction false} ReadyRoundsReadFrames(l: Link, rounds: seq<Round>)
    requires !Run(l, rounds).over
    ensures |FramesRead(l, rounds)| == WsRounds(rounds)
    decreases |rounds|
  {
    hide Parse, Encode, Reply;
    if rounds == [] {
    } else {
      ReadyRoundsReadFrames(l, rounds[..|rounds| - 1]);
    }
  }

  /** A client's whole stream of frames arrives: TCP got exactly their payloads. */
  lemma WholeStreamReachesTcp(l: Link, rounds: seq<Round>, fs: seq<WireFrame>)
    requires l.wsIn == EncodeAll(fs) && !Run(l, rounds).over && WsRounds(rounds) == |fs|
    ensures Run(l, rounds).tcpOut == l.tcpOut + Payloads(fs) && Run(l, rounds).wsIn == []
  {
    hide Encode, Parse, Payloads, Chosen, Run, FramesRead, EncodeAll;
    ReadyRoundsReadFrames(l, rounds);
    assert EncodeAll(fs) + [] == EncodeAll(fs);
    FramesReachTcp(l, rounds, fs, []);
    assert fs[..|fs|] == fs;
    NothingLeft(EncodeAll(fs), Run(l, rounds).wsIn);
  }

  lemma NothingLeft(a: seq<byte>, b: seq<byte>)
    requires a == a + b
    ensures b == []
  {
    assert |a| == |a| + |b|;
  }

  /** Pings read so far and pongs found on the WebSocket side match one to one, payload by payload. */
  lemma PingsAreAnswered(l: Link, rounds: seq<Round>)
    requires l.wsOut == []
    ensures PongsMatch(FramesRead(l, rounds), ParseAll(Run(l, rounds).wsOut))
  {
    hide Encode, Parse, Payloads, PongsMatch, Run, FramesRead, FramesSent, EncodeAll, ParseAll;
    RunCarries(l, rounds);
    ParseAllInverts(FramesSent(l, rounds));
    assert [] + EncodeAll(FramesSent(l, rounds)) == EncodeAll(FramesSent(l, rounds));
  }

  // ---- the session lasts, and nothing waits for ever ----

  /** What a round reports is there: bytes from TCP, and from the client a whole frame that is not a close. */
  ghost predicate Finds(l: Link, r: Round) {
    && (r.tcp.Some? ==> r.tcp.value > 0 && l.tcpIn != [])
    && (r.ws ==> StartsWithFrame(l.wsIn) && l.wsIn[0] % 16 != 8)
  }

  ghost predicate StartsWithFrame(s: seq<byte>) {
    |s| >= 2 && |s| >= WireHead(s) && WireLength(s) <= 65536 && |s| >= WireHead(s) + WireLength(s)
  }

  lemma RoundLastsIff(l: Link, r: Round)
    ensures !RoundStep(l, r).over <==> !l.over && Finds(l, r)
  {
    hide Parse, Encode, Reply, WireHead, WireLength;
    ReadsTheWire(l.wsIn);
  }

  /** The session ends exactly with the first round that finds TCP closed, or no frame, or a close. */
  lemma {:induction false} SessionLastsIff(l: Link, rounds: seq<Round>)
    requires !l.over
    ensures !Run(l, rounds).over <==> forall i | 0 <= i < |rounds| :: Finds(Run(l, rounds[..i]), rounds[i])
    decreases |rounds|
  {
    hide RoundStep, Finds;
    if rounds != [] {
      var front, n := rounds[..|rounds| - 1], |rounds| - 1;
      SessionLastsIff(l, front);
      RoundLastsIff(Run(l, front), rounds[n]);
      assert forall i | 0 <= i < n :: front[..i] == rounds[..i];
      assert rounds[..n] == front;
    }
  }

  /** How many bytes recv() may return in all: at most 4096 at a time. */
  function Asked(rounds: seq<Round>): nat {
    if rounds == [] then 0
    else
      var r := rounds[|rounds| - 1];
      Asked(rounds[..|rounds| - 1]) + if r.tcp.Some? then Min(r.tcp.value, 4096) else 0
  }

  lemma {:induction false} TakesWhatIsAsked(l: Link, rounds: seq<Round>)
    requires !Run(l, rounds).over
    ensures |Run(l, rounds).tcpIn| == |l.tcpIn| - Min(Asked(rounds), |l.tcpIn|)
    decreases |rounds|
  {
    hide Parse, Encode, Reply;
    if rounds != [] {
      TakesWhatIsAsked(l, rounds[..|rounds| - 1]);
    }
  }

  /** While the session lasts and recv() may return enough, the client gets the whole TCP stream. */
  lemma WholeTcpStreamReachesClient(l: Link, rounds: seq<Round>)
    requires l.wsOut == [] && !Run(l, rounds).over && Asked(rounds) >= |l.tcpIn|
    ensures Payloads(Chosen(ParseAll(Run(l, rounds).wsOut), 2)) == l.tcpIn
  {
    TakesWhatIsAsked(l, rounds);
    hide Run, Asked, Payloads, Chosen, ParseAll;
    TcpStreamSurvives(l, rounds);
  }

  // ---- control frames ----

  /** Opcodes from 8 on are control frames (section 5.5 of RFC 6455). */
  predicate IsControl(f: Frame) {
    f.Opcode() >= 8
  }

  function DataFrames(fs: seq<WireFrame>): seq<WireFrame> {
    if fs == [] then []
    else DataFrames(fs[..|fs| - 1]) + if IsControl(fs[|fs| - 1]) then [] else [fs[|fs| - 1]]
  }

  function ControlBytes(fs: seq<WireFrame>): nat {
    if fs == [] then 0
    else ControlBytes(fs[..|fs| - 1]) + if IsControl(fs[|fs| - 1]) then |fs[|fs| - 1].payload| else 0
  }

  ghost predicate ControlsAreEmpty(fs: seq<WireFrame>) {
    forall f | f in fs && IsControl(f) :: f.payload == []
  }

  lemma LastOf(fs: seq<WireFrame>)
    requires fs != []
    ensures var front, last := fs[..|fs| - 1], fs[|fs| - 1];
            ControlsAreEmpty(fs) <==> ControlsAreEmpty(front) && (IsControl(last) ==> last.payload == [])
  {
    assert fs == fs[..|fs| - 1] + [fs[|fs| - 1]];
  }

  lemma {:induction false} PayloadLengths(fs: seq<WireFrame>)
    ensures |Payloads(fs)| == |Payloads(DataFrames(fs))| + ControlBytes(fs)
    ensures ControlBytes(fs) == 0 ==> Payloads(fs) == Payloads(DataFrames(fs))
    ensures ControlBytes(fs) == 0 <==> ControlsAreEmpty(fs)
  {
    hide ControlsAreEmpty, IsControl, Chosen;
    if fs == [] {
      NoControls();
    } else {
      var front, last := fs[..|fs| - 1], fs[|fs| - 1];
      PayloadLengths(front);
      LastOf(fs);
      if IsControl(last) {
        assert DataFrames(front) + [] == DataFrames(front);
      } else {
        Snoc(DataFrames(front), last);
      }
    }
  }

  lemma NoControls()
    ensures ControlsAreEmpty([])
  {
  }

  /** The payloads are the data stream if and only if every control frame is empty. */
  lemma DataStreamIffControlsEmpty(fs: seq<WireFrame>)
    ensures Payloads(fs) == Payloads(DataFrames(fs)) <==> ControlsAreEmpty(fs)
  {
    PayloadLengths(fs);
  }

  /**
   Control payloads are forwarded too: over any run and for every framing of the client's
   stream, TCP got exactly the data frames' payloads if and only if every control frame
   among those read was empty.
   */
  lemma TcpGetsDataIffControlsEmpty(l: Link, rounds: seq<Round>, fs: seq<WireFrame>, tail: seq<byte>)
    requires l.wsIn == EncodeAll(fs) + tail && |FramesRead(l, rounds)| <= |fs|
    ensures var read := fs[..|FramesRead(l, rounds)|];
            Run(l, rounds).tcpOut == l.tcpOut + Payloads(DataFrames(read)) <==> ControlsAreEmpty(read)
  {
    hide *;
    var read := fs[..|FramesRead(l, rounds)|];
    FramesReachTcp(l, rounds, fs, tail);
    DataStreamIffControlsEmpty(read);
    SameAfter(l.tcpOut, Payloads(read), Payloads(DataFrames(read)));
  }

  lemma SameAfter(a: seq<byte>, b: seq<byte>, c: seq<byte>)
    ensures a + b == a + c <==> b == c
  {
    assert (a + b)[|a|..] == b && (a + c)[|a|..] == c;
  }

  /** Any ping that is not empty shows it: the pong goes back and TCP gets the payload. */
  lemma PingPayloadReachesTcp(l: Link, ping: WireFrame, tail: seq<byte>)
    requires !l.over && l.wsIn == Encode(ping) + tail
    requires ping.Opcode() == 9 && ping.payload != []
    ensures var m, read := Run(l, [Round(None, true)]), FramesRead(l, [Round(None, true)]);
      && read == [ping] && DataFrames(read) == []
      && m == Link(tail, l.tcpIn, l.wsOut + Encode(Outgoing(10, ping.payload)), l.tcpOut + ping.payload, false)
  {
    hide Encode, Parse;
    var rounds := [Round(None, true)];
    assert rounds[..0] == [];
    assert Run(l, []) == l && FramesRead(l, []) == [];
    ParseReadsEncoded(ping, tail);
    assert (Encode(ping) + tail)[|Encode(ping)|..] == tail;
    assert [ping][..0] == [];
  }

  // ---- the loop ----

  class Bridge {
    const ws: Socket
    const tcp: Socket
    var over: bool

    constructor (ws: Socket, tcp: Socket)
      requires ws != tcp
      ensures this.ws == ws && this.tcp == tcp && !over
    {
      this.ws, this.tcp, over := ws, tcp, false;
    }

    ghost function View(): Link
      reads this, ws, tcp
    {
      Link(ws.incoming, tcp.incoming, ws.sent, tcp.sent, over)
    }

    /** Equal links, except that an ended link's unread WebSocket input is left open. */
    ghost predicate Matches(l: Link)
      reads this, ws, tcp
    {
      View() == l.(wsIn := if over then ws.incoming else l.wsIn)
    }

    /** One recv() of at most n bytes, sent on as a binary frame. */
    method TcpReady(n: nat, tcpBuf: array<byte>)
      requires ws != tcp && !over && tcpBuf.Length == TCP_CHUNK
      modifies this`over, ws`sent, tcp`incoming, tcpBuf
      ensures View() == CarryTcp(old(View()), n)
    {
      hide Encode;
      var k := Received(n, tcp.incoming);
      if k == 0 {
        over := true;
        return;
      }
      tcp.TakeInto(tcpBuf, 0, k);
      assert tcpBuf[..k] == old(tcp.incoming)[..k];
      ws.SendFrame(2, tcpBuf, k);
    }

    /** One frame from the client. */
    method WsReady(wsPayload: array<byte>)
      requires ws != tcp && !over && wsPayload.Length == MAX_PAYLOAD
      modifies this`over, ws, tcp`sent, wsPayload
      ensures Matches(CarryFrame(old(View())))
    {
      hide Encode, Parse, IsWirePayload, WireHead, WireLength;
      ReadsTheWire(ws.incoming);
      var ok, len, closed := ws.ReadFrame(wsPayload, false);
      assert old(ws.sent) + [] == old(ws.sent);
      if !ok {
        over := true;
        return;
      }
      assert old(tcp.sent) + [] == old(tcp.sent);
      if len > 0 {
        tcp.SendAll(wsPayload[..len]);
      }
    }

    /** The loop, for any sequence of select() results. */
    method Forward(rounds: seq<Round>)
      requires ws != tcp && !over
      modifies this`over, ws, tcp
      ensures Matches(Run(old(View()), rounds))
    {
      hide CarryTcp, CarryFrame, Encode, Parse;
      var tcpBuf := new byte[TCP_CHUNK];
      var wsPayload := new byte[MAX_PAYLOAD];
      ghost var start := View();
      var i := 0;
      while i < |rounds|
        invariant 0 <= i <= |rounds|
        invariant Matches(Run(start, rounds[..i]))
      {
        assert rounds[..i + 1][..i] == rounds[..i];
        if !over {
          if rounds[i].tcp.Some? {
            TcpReady(rounds[i].tcp.value, tcpBuf);
          }
          if rounds[i].ws && !over {
            WsReady(wsPayload);
          }
        }
        i := i + 1;
      }
      assert rounds[..i] == rounds;
    }
  }
}
