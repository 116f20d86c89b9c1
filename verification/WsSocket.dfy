/** The proxy's socket routines: transfers in arbitrary pieces, frames built and taken apart in place. */
module WsSocket {
  import opened Common
  import opened WsFrame

  /** What is written back on the WebSocket: a ping (0x9) gets a pong (0xA) with its payload. */
  function Reply(f: Frame): seq<byte>
    requires Fits(f)
  {
    if f.Opcode() == 9 then Encode(Outgoing(10, f.payload)) else []
  }

  /** n shifted right by k bytes. */
  function Shifted(n: nat, k: nat): nat
    decreases k
  {
    if k == 0 then n else Shifted(n / 256, k - 1)
  }

  lemma {:induction false} ShiftOneMore(n: nat, k: nat)
    ensures Shifted(n, k) / 256 == Shifted(n, k + 1)
    decreases k
  {
    if k > 0 {
      ShiftOneMore(n / 256, k - 1);
    }
  }

  class Socket {
    /** Bytes the peer has sent or will still send before it closes. */
    var incoming: seq<byte>
    /** Bytes handed to the network so far. */
    var sent: seq<byte>

    constructor (incoming: seq<byte>)
      ensures this.incoming == incoming && sent == []
    {
      this.incoming, sent := incoming, [];
    }

    /** recv(): any positive number of the bytes that are there, or 0 at the end of the stream. */
    method Recv(buf: array<byte>, at: nat, max: nat) returns (n: nat)
      requires at + max <= buf.Length && max > 0
      modifies this`incoming, buf
      ensures n <= max && n <= |old(incoming)| && (n == 0 <==> old(incoming) == [])
      ensures incoming == old(incoming)[n..]
      ensures buf[..at + n] == old(buf[..at]) + old(incoming)[..n]
      ensures buf[at + n..] == old(buf[at + n..])
    {
      if incoming == [] {
        return 0;
      }
      n :| 1 <= n <= max && n <= |incoming|;
      TakeInto(buf, at, n);
    }

    /** Moves the next n bytes into the buffer. */
    method TakeInto(buf: array<byte>, at: nat, n: nat)
      requires at + n <= buf.Length && n <= |incoming|
      modifies this`incoming, buf
      ensures incoming == old(incoming)[n..]
      ensures buf[..at + n] == old(buf[..at]) + old(incoming)[..n]
      ensures buf[at + n..] == old(buf[at + n..])
    {
      forall i | 0 <= i < n {
        buf[at + i] := incoming[i];
      }
      incoming := incoming[n..];
    }

    /** Fills the first len bytes of the buffer, or fails with the stream used up. */
    method ReadFull(buf: array<byte>, len: nat) returns (ok: bool)
      requires len <= buf.Length
      modifies this`incoming, buf
      ensures ok <==> |old(incoming)| >= len
      ensures ok ==> buf[..len] == old(incoming)[..len] && incoming == old(incoming)[len..]
      ensures !ok ==> incoming == []
    {
      var got := 0;
      while got < len
        invariant got <= len && got <= |old(incoming)|
        invariant buf[..got] == old(incoming)[..got]
        invariant incoming == old(incoming)[got..]
      {
        var n := Recv(buf, got, len - got);
        if n == 0 {
          return false;
        }
        got := got + n;
      }
      ok := true;
    }

    /** send(): any positive number of the bytes offered. */
    method Send(data: seq<byte>) returns (n: nat)
      requires data != []
      modifies this`sent
      ensures 1 <= n <= |data| && sent == old(sent) + data[..n]
    {
      n :| 1 <= n <= |data|;
      sent := sent + data[..n];
    }

    method SendAll(data: seq<byte>)
      modifies this`sent
      ensures sent == old(sent) + data
    {
      var left := data;
      while left != []
        invariant sent + left == old(sent) + data
        decreases |left|
      {
        var n := Send(left);
        left := left[n..];
      }
    }

    method SendFrame(opcode: nat, payload: array<byte>, len: nat)
      requires opcode < 16 && len <= payload.Length && len < 0x1_0000_0000_0000_0000
      modifies this`sent
      ensures sent == old(sent) + Encode(Outgoing(opcode, payload[..len]))
    {
      hide BigEndian, Encode, ExtendedLength;
      var header := new byte[14];
      header[0] := 128 + opcode;
      var h := 2;
      if len < 126 {
        header[1] := len;
      } else if len < 65536 {
        header[1] := 126;
        header[2] := len / 256;
        header[3] := len % 256;
        h := 4;
      } else {
        header[1] := 127;
        h := PutLength64(header, len);
      }
      HeaderIs(opcode, payload[..len], header[..h]);
      SendAll(header[..h]);
      SendAll(payload[..len]);
    }

    /** The extended length, if the 7-bit code calls for one. */
    method ReadLength(code: nat) returns (ok: bool, n: nat)
      requires code < 128
      modifies this`incoming
      ensures var e := ExtendedSize(FormOf(code));
              && (ok <==> |old(incoming)| >= e)
              && (ok ==> incoming == old(incoming)[e..] && n == if e == 0 then code else Value(old(incoming)[..e]))
    {
      var extended := new byte[8];
      ok, n := true, code;
      if code == 126 {
        ok := ReadFull(extended, 2);
        if ok {
          n := (extended[0] as int) * 256 + extended[1];
          ValueOfTwo(extended[..2]);
        }
      } else if code == 127 {
        ok := ReadFull(extended, 8);
        if ok {
          n := ValueOfArray(extended);
          assert extended[..] == extended[..8];
        }
      }
    }

    /** The two header bytes, the extended length and the mask key. */
    method ReadHead(key: array<byte>) returns (ok: bool, opcode: byte, masked: bool, len: nat)
      requires key.Length == 4
      modifies this`incoming, key
      ensures var s := old(incoming);
              && (ok <==> |s| >= 2 && |s| >= HeaderSize(s))
              && (ok ==>
                    && incoming == s[HeaderSize(s)..]
                    && opcode == s[0] % 16 && masked == (s[1] >= 128) && len == AnnouncedLength(s)
                    && (masked ==> key[..] == s[HeaderSize(s) - 4..HeaderSize(s)]))
    {
      hide Value, ExtendedSize, FormOf;
      ghost var s := incoming;
      opcode, masked, len := 0, false, 0;
      var header := new byte[2];
      ok := ReadFull(header, 2);
      if !ok {
        return;
      }
      assert header[0] == s[0] && header[1] == s[1];
      opcode, masked := header[0] % 16, header[1] >= 128;
      ghost var e := ExtendedSize(FormOf(header[1] % 128));
      DropAgain(s, 2, e);
      ok, len := ReadLength(header[1] % 128);
      if ok {
        AnnouncedBy(s, len);
        if masked {
          DropAgain(s, 2 + e, 4);
          ok := ReadFull(key, 4);
          assert key[..] == key[..4];
        }
      }
    }

    /** The next frame with its payload unmasked in the buffer; fails where Parse does. */
    method ReceiveFrame(payload: array<byte>) returns (ok: bool, opcode: byte, len: nat)
      requires payload.Length == MAX_PAYLOAD
      modifies this`incoming, payload
      ensures ok <==> Parse(old(incoming)).Some?
      ensures ok ==>
        var p := Parse(old(incoming)).value;
        && p.size <= |old(incoming)| && incoming == old(incoming)[p.size..]
        && opcode == p.frame.Opcode()
        && len == |p.frame.payload| <= MAX_PAYLOAD && payload[..len] == p.frame.payload
        && IsWirePayload(old(incoming), payload[..len])
    {
      hide Parse, Masked, AnnouncedLength, HeaderSize, IsWirePayload;
      ghost var s := incoming;
      ReadsTheWire(s);
      var key := new byte[4](_ => 0);
      var masked;
      ok, opcode, masked, len := ReadHead(key);
      if !ok || len > MAX_PAYLOAD {
        NoFrame(s);
        return false, opcode, len;
      }
      DropAgain(s, HeaderSize(s), len);
      ok := ReadFull(payload, len);
      if !ok {
        NoFrame(s);
        return;
      }
      FrameIs(s, key[..]);
      if masked {
        Unmask(payload, len, key);
      }
    }

    /**
     One frame: its payload in the buffer, a ping answered, the close flag updated. The
     outcome is that of Parse on the bytes that will ever arrive.
     */
    method ReadFrame(payload: array<byte>, close: bool) returns (ok: bool, len: nat, closed: bool)
      requires payload.Length == MAX_PAYLOAD
      modifies this, payload
      ensures Parse(old(incoming)).None? ==> !ok && closed == close && sent == old(sent)
      ensures Parse(old(incoming)).Some? ==>
        var p := Parse(old(incoming)).value;
        && Fits(p.frame) && p.size <= |old(incoming)|
        && incoming == old(incoming)[p.size..]
        && len == |p.frame.payload| && payload[..len] == p.frame.payload
        && IsWirePayload(old(incoming), payload[..len])
        && sent == old(sent) + Reply(p.frame)
        && (var opcode := old(incoming)[0] % 16; closed <==> opcode == 8 || (close && opcode != 1 && opcode != 2))
        && (ok <==> !closed)
    {
      hide Parse, Encode, IsWirePayload;
      ghost var s := incoming;
      closed := close;
      var opcode;
      ok, opcode, len := ReceiveFrame(payload);
      if !ok {
        return;
      }
      ParsedWasEncoded(s);
      ReadsTheWire(s);
      if opcode == 8 {
        closed := true;
      } else if opcode == 9 {
        SendFrame(10, payload, len);
      } else if opcode == 1 || opcode == 2 {
        closed := false;
      }
      ok := !closed;
    }
  }

  lemma DropAgain<T>(s: seq<T>, at: nat, n: nat)
    requires at <= |s|
    ensures at + n <= |s| ==> s[at..][..n] == s[at..at + n] && s[at..][n..] == s[at + n..]
  {
  }

  lemma AnnouncedBy(s: seq<byte>, n: nat)
    requires |s| >= 2 && |s| >= 2 + ExtendedSize(FormOf(s[1] % 128))
    requires var e := ExtendedSize(FormOf(s[1] % 128));
             n == if e == 0 then s[1] % 128 else Value(s[2..2 + e])
    ensures n == AnnouncedLength(s)
  {
  }

  /** The 64-bit length, accumulated byte by byte. */
  method ValueOfArray(extended: array<byte>) returns (n: nat)
    ensures n == Value(extended[..])
  {
    n := 0;
    var i := 0;
    while i < extended.Length
      invariant 0 <= i <= extended.Length
      invariant n == Value(extended[..i])
    {
      n := n * 256 + (extended[i] as int);
      i := i + 1;
      assert extended[..i][..i - 1] == extended[..i - 1];
    }
    assert extended[..i] == extended[..];
  }

  lemma ValueOfTwo(ext: seq<byte>)
    requires |ext| == 2
    ensures Value(ext) == (ext[0] as int) * 256 + ext[1]
  {
    assert ext[..1][..0] == [];
    assert Value(ext[..1]) == ext[0];
  }

  /** Exclusive or with the key, in place. */
  method Unmask(payload: array<byte>, len: nat, key: array<byte>)
    requires len <= payload.Length && key.Length == 4 && payload != key
    modifies payload
    ensures payload[..len] == Masked(old(payload[..len]), key[..])
    ensures forall k | 0 <= k < len :: IsXor(payload[k], old(payload[k]), key[k % 4])
  {
    hide Xor, IsXor;
    var i := 0;
    while i < len
      invariant 0 <= i <= len
      invariant forall k | 0 <= k < i :: payload[k] == Xor(old(payload[k]), key[k % 4])
      invariant forall k | i <= k < payload.Length :: payload[k] == old(payload[k])
    {
      payload[i] := Xor(payload[i], key[i % 4]);
      i := i + 1;
    }
    forall k | 0 <= k < len
      ensures IsXor(payload[k], old(payload[k]), key[k % 4])
    {
      MaskedIsXor(old(payload[..len]), key[..], k);
    }
  }

  /** The eight length bytes, most significant first. */
  method PutLength64(header: array<byte>, len: nat) returns (h: nat)
    requires header.Length == 14
    modifies header
    ensures h == 10 && header[2..10] == BigEndian(len, 8) && header[..2] == old(header[..2])
  {
    h := 2;
    while h < 10
      invariant 2 <= h <= 10
      invariant header[..2] == old(header[..2])
      invariant header[2..h] == BigEndian(Shifted(len, 10 - h), h - 2)
    {
      ShiftOneMore(len, 9 - h);
      header[h] := Shifted(len, 9 - h) % 256;
      h := h + 1;
      assert header[2..h] == header[2..h - 1] + [header[h - 1]];
    }
  }

  /** Header bytes followed by the payload are the encoded frame. */
  lemma HeaderIs(opcode: nat, payload: seq<byte>, header: seq<byte>)
    requires opcode < 16 && |payload| < 0x1_0000_0000_0000_0000
    requires var f := Outgoing(opcode, payload);
             && |header| == 2 + ExtendedSize(f.form)
             && header[0] == f.first && header[1] == LengthCode(f.form, |payload|)
             && IsExtended(f.form, |payload|, header[2..])
    ensures header + payload == Encode(Outgoing(opcode, payload))
  {
    hide BigEndian;
    var f := Outgoing(opcode, payload);
    if f.form == Len16 {
      TwoBytes(|payload|);
    }
    assert header == [header[0], header[1]] + header[2..];
  }

  ghost predicate IsExtended(form: Form, n: nat, s: seq<byte>) {
    match form
    case Len7 => s == []
    case Len16 => n < 65536 && s == [n / 256, n % 256]
    case Len64 => s == BigEndian(n, 8)
  }

  lemma TwoBytes(n: nat)
    requires n < 65536
    ensures BigEndian(n, 2) == [n / 256, n % 256]
  {
    assert BigEndian(n / 256, 1) == BigEndian(n / 256 / 256, 0) + [n / 256 % 256];
  }
}
