/**
 WebSocket frames (sections 5.2 and 5.3 of RFC 6455) as the proxy reads and writes them.
 The reader accepts any of the three length forms for any length, masked or not, and looks
 only at the opcode nibble of the first byte; the writer uses the shortest form, unmasked.
 */
module WsFrame {
  import opened Common

  const MAX_PAYLOAD := 65536

  // ---- exclusive or ----

  function Pow2(n: nat): nat {
    if n == 0 then 1 else 2 * Pow2(n - 1)
  }

  /** Exclusive or of the low n bits. */
  function XorBits(a: nat, b: nat, n: nat): (r: nat)
    ensures r < Pow2(n)
  {
    if n == 0 then 0 else (if a % 2 != b % 2 then 1 else 0) + 2 * XorBits(a / 2, b / 2, n - 1)
  }

  function Xor(a: byte, b: byte): byte {
    assert Pow2(8) == 256 by {
      assert Pow2(4) == 16;
    }
    XorBits(a, b, 8)
  }

  lemma {:induction false} XorBitsTwice(a: nat, b: nat, n: nat)
    requires a < Pow2(n)
    ensures XorBits(XorBits(a, b, n), b, n) == a
  {
    if n > 0 {
      var d := if a % 2 != b % 2 then 1 else 0;
      var rest := XorBits(a / 2, b / 2, n - 1);
      DivModIs(XorBits(a, b, n), rest, 2, d);
      XorBitsTwice(a / 2, b / 2, n - 1);
    }
  }

  lemma XorTwice(a: byte, b: byte)
    ensures Xor(Xor(a, b), b) == a
  {
    assert Pow2(8) == 256 by {
      assert Pow2(4) == 16;
    }
    XorBitsTwice(a, b, 8);
  }

  /** Bit i of a number. */
  function BitAt(n: nat, i: nat): nat
    decreases i
  {
    if i == 0 then n % 2 else BitAt(n / 2, i - 1)
  }

  lemma {:induction false} XorBitsAt(a: nat, b: nat, n: nat, i: nat)
    requires i < n
    ensures BitAt(XorBits(a, b, n), i) == 1 <==> BitAt(a, i) != BitAt(b, i)
    ensures BitAt(XorBits(a, b, n), i) <= 1
    decreases n
  {
    var d := if a % 2 != b % 2 then 1 else 0;
    var rest := XorBits(a / 2, b / 2, n - 1);
    DivModIs(XorBits(a, b, n), rest, 2, d);
    if i > 0 {
      XorBitsAt(a / 2, b / 2, n - 1, i - 1);
    }
  }

  /** A bit of the result is set exactly where the two bytes differ. */
  lemma XorIsExclusiveOr(a: byte, b: byte, i: nat)
    requires i < 8
    ensures BitAt(Xor(a, b), i) == 1 <==> BitAt(a, i) != BitAt(b, i)
  {
    XorBitsAt(a, b, 8, i);
  }

  type Key = k: seq<byte> | |k| == 4 witness [0, 0, 0, 0]

  /** Masking; applying it twice with the same key gives back the payload. */
  function Masked(payload: seq<byte>, key: Key): (m: seq<byte>)
    ensures |m| == |payload|
  {
    seq(|payload|, i requires 0 <= i < |payload| => Xor(payload[i], key[i % 4]))
  }

  lemma MaskedTwice(payload: seq<byte>, key: Key)
    ensures Masked(Masked(payload, key), key) == payload
  {
    hide Xor;
    forall i | 0 <= i < |payload|
      ensures Masked(Masked(payload, key), key)[i] == payload[i]
    {
      XorTwice(payload[i], key[i % 4]);
    }
  }

  /** Byte c is byte a exclusive-ored with byte b, bit by bit. */
  ghost predicate IsXor(c: byte, a: byte, b: byte) {
    forall i: nat | i < 8 :: BitAt(c, i) == 1 <==> BitAt(a, i) != BitAt(b, i)
  }

  lemma MaskedIsXor(payload: seq<byte>, key: Key, i: nat)
    requires i < |payload|
    ensures IsXor(Masked(payload, key)[i], payload[i], key[i % 4])
  {
    hide Xor, BitAt;
    forall j: nat | j < 8
      ensures BitAt(Masked(payload, key)[i], j) == 1 <==> BitAt(payload[i], j) != BitAt(key[i % 4], j)
    {
      XorIsExclusiveOr(payload[i], key[i % 4], j);
    }
  }

  // ---- lengths, most significant byte first ----

  function Pow256(k: nat): (p: nat)
    ensures p > 0
  {
    if k == 0 then 1 else 256 * Pow256(k - 1)
  }

  function BigEndian(n: nat, k: nat): (s: seq<byte>)
    ensures |s| == k
  {
    if k == 0 then [] else BigEndian(n / 256, k - 1) + [n % 256]
  }

  function Value(s: seq<byte>): nat {
    if s == [] then 0 else 256 * Value(s[..|s| - 1]) + s[|s| - 1]
  }

  lemma {:induction false} ValueOfBigEndian(n: nat, k: nat)
    requires n < Pow256(k)
    ensures Value(BigEndian(n, k)) == n
  {
    if k > 0 {
      ValueOfBigEndian(n / 256, k - 1);
      var s := BigEndian(n, k);
      assert s[..k - 1] == BigEndian(n / 256, k - 1);
    }
  }

  lemma {:induction false} BigEndianOfValue(s: seq<byte>)
    ensures BigEndian(Value(s), |s|) == s
  {
    if s == [] {
    } else {
      var front := s[..|s| - 1];
      BigEndianOfValue(front);
      DivModIs(Value(s), Value(front), 256, s[|s| - 1]);
      assert s == front + [s[|s| - 1]];
    }
  }

  lemma SmallPowers()
    ensures Pow256(2) == 65536 && Pow256(8) == 0x1_0000_0000_0000_0000
  {
    assert Pow256(4) == 0x1_0000_0000;
    assert Pow256(6) == 0x1_0000_0000_0000;
  }

  // ---- frames ----

  datatype Form = Len7 | Len16 | Len64

  /** A frame on the wire: first byte, length form, mask key if masked, and unmasked payload. */
  datatype Frame = Frame(first: byte, form: Form, key: Option<Key>, payload: seq<byte>)
  {
    function Opcode(): byte {
      first % 16
    }
  }

  predicate FormFits(form: Form, n: nat) {
    match form
    case Len7 => n < 126
    case Len16 => n < 65536
    case Len64 => n < 0x1_0000_0000_0000_0000
  }

  /** The frames the proxy takes: representable, and not larger than its buffer. */
  predicate Fits(f: Frame) {
    FormFits(f.form, |f.payload|) && |f.payload| <= MAX_PAYLOAD
  }

  function LengthCode(form: Form, n: nat): (c: nat)
    requires FormFits(form, n)
    ensures c < 128
  {
    match form
    case Len7 => n
    case Len16 => 126
    case Len64 => 127
  }

  function ExtendedLength(form: Form, n: nat): (s: seq<byte>)
    ensures |s| == ExtendedSize(form)
  {
    match form
    case Len7 => []
    case Len16 => BigEndian(n, 2)
    case Len64 => BigEndian(n, 8)
  }

  function ExtendedSize(form: Form): nat {
    match form
    case Len7 => 0
    case Len16 => 2
    case Len64 => 8
  }

  function FormOf(code: nat): Form {
    if code == 126 then Len16 else if code == 127 then Len64 else Len7
  }

  function KeyBytes(key: Option<Key>): seq<byte> {
    if key.Some? then key.value else []
  }

  function Body(f: Frame): (b: seq<byte>)
    ensures |b| == |f.payload|
  {
    if f.key.Some? then Masked(f.payload, f.key.value) else f.payload
  }

  function MaskBit(key: Option<Key>): nat {
    if key.Some? then 128 else 0
  }

  function Encode(f: Frame): seq<byte>
    requires FormFits(f.form, |f.payload|)
  {
    [f.first, MaskBit(f.key) + LengthCode(f.form, |f.payload|)]
    + ExtendedLength(f.form, |f.payload|) + KeyBytes(f.key) + Body(f)
  }

  datatype Parsed = Parsed(frame: Frame, size: nat)

  /** The length a header announces. */
  function AnnouncedLength(s: seq<byte>): nat
    requires |s| >= 2 && |s| >= 2 + ExtendedSize(FormOf(s[1] % 128))
  {
    var form := FormOf(s[1] % 128);
    if form == Len7 then s[1] % 128 else Value(s[2..2 + ExtendedSize(form)])
  }

  /** readWsFrame() on the bytes that will ever arrive: None when it reports failure. */
  function Parse(s: seq<byte>): Option<Parsed> {
    if |s| < 2 then None
    else
      var form := FormOf(s[1] % 128);
      var masked := s[1] >= 128;
      var keyAt := 2 + ExtendedSize(form);
      var bodyAt := keyAt + if masked then 4 else 0;
      if |s| < bodyAt then None
      else
        var n := AnnouncedLength(s);
        if n > MAX_PAYLOAD || |s| < bodyAt + n then None
        else
          var key: Option<Key> := if masked then Some(s[keyAt..bodyAt]) else None;
          var body := s[bodyAt..bodyAt + n];
          Some(Parsed(Frame(s[0], form, key, if masked then Masked(body, key.value) else body), bodyAt + n))
  }

  function HeaderSize(s: seq<byte>): nat
    requires |s| >= 2
  {
    2 + ExtendedSize(FormOf(s[1] % 128)) + if s[1] >= 128 then 4 else 0
  }

  lemma NoFrame(s: seq<byte>)
    requires |s| < 2 || |s| < HeaderSize(s)
             || AnnouncedLength(s) > MAX_PAYLOAD || |s| < HeaderSize(s) + AnnouncedLength(s)
    ensures Parse(s) == None
  {
    hide AnnouncedLength;
  }

  lemma FrameIs(s: seq<byte>, key: Key)
    requires |s| >= 2 && |s| >= HeaderSize(s)
    requires AnnouncedLength(s) <= MAX_PAYLOAD && |s| >= HeaderSize(s) + AnnouncedLength(s)
    requires s[1] >= 128 ==> key == s[HeaderSize(s) - 4..HeaderSize(s)]
    ensures var p := Parse(s);
            && p.Some? && p.value.size == HeaderSize(s) + AnnouncedLength(s)
            && p.value.frame.first == s[0]
            && p.value.frame.payload ==
               (var body := s[HeaderSize(s)..p.value.size]; if s[1] >= 128 then Masked(body, key) else body)
  {
    hide AnnouncedLength, Masked;
  }

  /** sendWsFrame()'s frame: shortest form, final, unmasked. */
  function Outgoing(opcode: nat, payload: seq<byte>): (f: Frame)
    requires opcode < 16 && |payload| < 0x1_0000_0000_0000_0000
    ensures FormFits(f.form, |payload|)
  {
    Frame(128 + opcode, if |payload| < 126 then Len7 else if |payload| < 65536 then Len16 else Len64, None, payload)
  }

  // ---- reading inverts writing, for every form and every key ----

  lemma AnnouncedIs(form: Form, n: nat, s: seq<byte>)
    requires FormFits(form, n) && |s| >= 2 + ExtendedSize(form)
    requires s[1] % 128 == LengthCode(form, n)
    requires s[2..2 + ExtendedSize(form)] == ExtendedLength(form, n)
    ensures FormOf(s[1] % 128) == form && AnnouncedLength(s) == n
  {
    hide BigEndian, Value, Pow256;
    SmallPowers();
    if form == Len16 {
      ValueOfBigEndian(n, 2);
    } else if form == Len64 {
      ValueOfBigEndian(n, 8);
    }
  }

  lemma ParseReadsEncoded(f: Frame, rest: seq<byte>)
    requires Fits(f)
    ensures Parse(Encode(f) + rest) == Some(Parsed(f, |Encode(f)|))
  {
    hide Masked, BigEndian, Value;
    var n := |f.payload|;
    var s := Encode(f) + rest;
    var keyAt := 2 + ExtendedSize(f.form);
    var bodyAt := keyAt + |KeyBytes(f.key)|;
    assert s[2..keyAt] == ExtendedLength(f.form, n);
    assert s[keyAt..bodyAt] == KeyBytes(f.key);
    assert s[bodyAt..bodyAt + n] == Body(f);
    AnnouncedIs(f.form, n, s);
    if f.key.Some? {
      MaskedTwice(f.payload, f.key.value);
    }
  }

  lemma AnnouncedFits(s: seq<byte>)
    requires |s| >= 2 && |s| >= 2 + ExtendedSize(FormOf(s[1] % 128))
    requires AnnouncedLength(s) <= MAX_PAYLOAD
    ensures var form, n := FormOf(s[1] % 128), AnnouncedLength(s);
            && FormFits(form, n)
            && LengthCode(form, n) == s[1] % 128
            && ExtendedLength(form, n) == s[2..2 + ExtendedSize(form)]
  {
    var form := FormOf(s[1] % 128);
    var ext := s[2..2 + ExtendedSize(form)];
    hide BigEndian, Value;
    BigEndianOfValue(ext);
    if form == Len16 {
      TwoBytesAreSmall(ext);
    }
  }

  lemma TwoBytesAreSmall(ext: seq<byte>)
    requires |ext| == 2
    ensures Value(ext) < 65536
  {
    assert Value(ext[..1]) == ext[0] by {
      assert ext[..1][..0] == [];
    }
  }

  lemma InFourParts(s: seq<byte>, a: nat, b: nat, c: nat)
    requires 2 <= a <= b <= c <= |s|
    ensures s[..c] == [s[0], s[1]] + s[2..a] + s[a..b] + s[b..c]
  {
  }

  /** What the parser cut the stream into. */
  lemma ParsedFields(s: seq<byte>)
    requires Parse(s).Some?
    ensures var p := Parse(s).value;
            var form := FormOf(s[1] % 128);
            var keyAt := 2 + ExtendedSize(form);
            var bodyAt := keyAt + |KeyBytes(p.frame.key)|;
            && keyAt <= bodyAt <= p.size <= |s|
            && p.frame.first == s[0] && p.frame.form == form
            && MaskBit(p.frame.key) + s[1] % 128 == s[1]
            && |p.frame.payload| == AnnouncedLength(s) <= MAX_PAYLOAD
            && KeyBytes(p.frame.key) == s[keyAt..bodyAt]
            && Body(p.frame) == s[bodyAt..p.size]
  {
    hide Masked, AnnouncedLength;
    var p := Parse(s).value;
    var bodyAt := 2 + ExtendedSize(FormOf(s[1] % 128)) + |KeyBytes(p.frame.key)|;
    if p.frame.key.Some? {
      MaskedTwice(s[bodyAt..p.size], p.frame.key.value);
    }
  }

  lemma ParsedWasEncoded(s: seq<byte>)
    requires Parse(s).Some?
    ensures var p := Parse(s).value;
            && Fits(p.frame)
            && |Encode(p.frame)| == p.size <= |s|
            && Encode(p.frame) == s[..p.size]
  {
    hide Parse, Body, KeyBytes, LengthCode, ExtendedLength, AnnouncedLength;
    var p := Parse(s).value;
    ParsedFields(s);
    AnnouncedFits(s);
    var keyAt := 2 + ExtendedSize(FormOf(s[1] % 128));
    InFourParts(s, keyAt, keyAt + |KeyBytes(p.frame.key)|, p.size);
  }

  /**
   The reader is exactly the inverse of the wire format: it yields frame f after n bytes if
   and only if f fits the buffer and the stream starts with f's n-byte encoding.
   */
  lemma ParseIsInverseOfEncode(s: seq<byte>, f: Frame, n: nat)
    ensures Parse(s) == Some(Parsed(f, n)) <==> Fits(f) && n == |Encode(f)| <= |s| && Encode(f) == s[..n]
  {
    hide Parse, Encode;
    if Parse(s) == Some(Parsed(f, n)) {
      ParsedWasEncoded(s);
    }
    if Fits(f) && n == |Encode(f)| <= |s| && Encode(f) == s[..n] {
      assert s == Encode(f) + s[n..];
      ParseReadsEncoded(f, s[n..]);
    }
  }

  /** Frames are self-delimiting: no encoding is a proper prefix of another. */
  lemma EncodingsArePrefixFree(f: Frame, g: Frame, x: seq<byte>, y: seq<byte>)
    requires Fits(f) && Fits(g) && Encode(f) + x == Encode(g) + y
    ensures f == g && x == y
  {
    hide Parse, Encode;
    ParseReadsEncoded(f, x);
    ParseReadsEncoded(g, y);
    assert x == (Encode(f) + x)[|Encode(f)|..];
    assert y == (Encode(g) + y)[|Encode(g)|..];
  }

  // ---- the wire, byte by byte ----

  /** Where the payload starts: two bytes, an extended length for the codes 126 and 127, a mask key. */
  function WireHead(s: seq<byte>): nat
    requires |s| >= 2
  {
    (if s[1] % 128 == 126 then 4 else if s[1] % 128 == 127 then 10 else 2) + if s[1] >= 128 then 4 else 0
  }

  /** The payload's length: the code itself, or the two or eight bytes behind it. */
  function WireLength(s: seq<byte>): nat
    requires |s| >= 2 && |s| >= WireHead(s)
  {
    if s[1] % 128 == 126 then 256 * s[2] + s[3]
    else if s[1] % 128 == 127 then FourBytes(s[2], s[3], s[4], s[5]) * 0x1_0000_0000 + FourBytes(s[6], s[7], s[8], s[9])
    else s[1] % 128
  }

  function FourBytes(a: byte, b: byte, c: byte, d: byte): nat {
    0x100_0000 * a + 0x1_0000 * b + 0x100 * c + d
  }

  lemma ValueOfEight(s: seq<byte>)
    requires |s| == 8
    ensures Value(s) == FourBytes(s[0], s[1], s[2], s[3]) * 0x1_0000_0000 + FourBytes(s[4], s[5], s[6], s[7])
  {
    ValueOfFirst(s[..4]);
    assert s[..4][..4] == s[..4];
    assert Value(s[..5]) == 256 * Value(s[..4]) + s[4] by { assert s[..5][..4] == s[..4]; }
    assert Value(s[..6]) == 256 * Value(s[..5]) + s[5] by { assert s[..6][..5] == s[..5]; }
    assert Value(s[..7]) == 256 * Value(s[..6]) + s[6] by { assert s[..7][..6] == s[..6]; }
    assert Value(s) == 256 * Value(s[..7]) + s[7];
  }

  lemma ValueOfFirst(s: seq<byte>)
    requires |s| == 4
    ensures Value(s) == FourBytes(s[0], s[1], s[2], s[3])
  {
    assert Value(s[..1]) == s[0] by { assert s[..1][..0] == []; }
    assert Value(s[..2]) == 256 * Value(s[..1]) + s[1] by { assert s[..2][..1] == s[..1]; }
    assert Value(s[..3]) == 256 * Value(s[..2]) + s[2] by { assert s[..3][..2] == s[..2]; }
    assert Value(s) == 256 * Value(s[..3]) + s[3];
  }

  lemma WireIs(s: seq<byte>)
    requires |s| >= 2
    ensures WireHead(s) == HeaderSize(s)
    ensures |s| >= WireHead(s) ==> |s| >= 2 + ExtendedSize(FormOf(s[1] % 128)) && WireLength(s) == AnnouncedLength(s)
  {
    hide Value;
    if |s| >= WireHead(s) {
      if s[1] % 128 == 126 {
        ValueOfPair(s[2..4]);
      } else if s[1] % 128 == 127 {
        ValueOfEight(s[2..10]);
      }
    }
  }

  lemma ValueOfPair(s: seq<byte>)
    requires |s| == 2
    ensures Value(s) == 256 * (s[0] as int) + s[1]
  {
    assert Value(s[..1]) == s[0] by { assert s[..1][..0] == []; }
  }

  /** The payload the bytes of a frame stand for: as they are, or exclusive-ored with the mask key. */
  ghost predicate IsWirePayload(s: seq<byte>, payload: seq<byte>) {
    && |s| >= 2 && |s| >= WireHead(s) + |payload|
    && |payload| == WireLength(s)
    && (s[1] < 128 ==> payload == s[WireHead(s)..WireHead(s) + |payload|])
    && (s[1] >= 128 ==> forall i | 0 <= i < |payload| ::
          IsXor(payload[i], s[WireHead(s) + i], s[WireHead(s) - 4 + i % 4]))
  }

  /**
   What is read, byte by byte: a frame exactly when header and payload are all there and the
   payload has at most 65536 bytes, the opcode from the first byte, the payload unmasked.
   */
  lemma ReadsTheWire(s: seq<byte>)
    ensures Parse(s).Some? <==>
            |s| >= 2 && |s| >= WireHead(s) && WireLength(s) <= 65536 && |s| >= WireHead(s) + WireLength(s)
    ensures Parse(s).Some? ==>
            var p := Parse(s).value;
            && p.size == WireHead(s) + WireLength(s) && p.frame.Opcode() == s[0] % 16
            && IsWirePayload(s, p.frame.payload)
  {
    if |s| < 2 {
      return;
    }
    WireIs(s);
    hide AnnouncedLength, Masked, IsXor, WireLength, WireHead;
    if |s| < HeaderSize(s) || AnnouncedLength(s) > 65536 || |s| < HeaderSize(s) + AnnouncedLength(s) {
      NoFrame(s);
    } else {
      var h, n := HeaderSize(s), AnnouncedLength(s);
      var key: Key := if s[1] >= 128 then s[h - 4..h] else [0, 0, 0, 0];
      FrameIs(s, key);
      if s[1] >= 128 {
        forall i | 0 <= i < n
          ensures IsXor(Parse(s).value.frame.payload[i], s[h + i], s[h - 4 + i % 4])
        {
          MaskedIsXor(s[h..h + n], key, i);
        }
      }
    }
  }

  /** What is sent, byte by byte: a final frame, unmasked, with the shortest length form. */
  lemma SentOnTheWire(opcode: nat, payload: seq<byte>)
    requires opcode < 16 && |payload| < 0x1_0000_0000_0000_0000
    ensures var s := Encode(Outgoing(opcode, payload));
      && |s| >= 2 && s[0] == 0x80 + opcode && s[1] < 128
      && (|payload| < 126 <==> s[1] < 126) && (|payload| >= 65536 <==> s[1] == 127)
      && |s| == WireHead(s) + |payload| && WireLength(s) == |payload| && s[WireHead(s)..] == payload
  {
    var f := Outgoing(opcode, payload);
    var s := Encode(f);
    var e := ExtendedSize(f.form);
    hide BigEndian, Value;
    assert s[2..2 + e] == ExtendedLength(f.form, |payload|);
    AnnouncedIs(f.form, |payload|, s);
    WireIs(s);
    hide WireLength, AnnouncedLength;
  }
}
