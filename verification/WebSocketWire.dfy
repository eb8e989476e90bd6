// The frame layout of section 5.2 of RFC 6455, against what the code reads and
// writes (modules/web/src/websocket/websocket.c).
module WebSocketWire {
  import opened Text
  import opened Octets
  import opened WebSocket

  /** How the length is written: in the second byte, or after it in two bytes or eight. */
  datatype Form = Short | Medium | Long

  /** A frame on the wire; an unmasked one has no key, and data is as it is sent. */
  datatype Wire = Wire(fin: bool, reserved: nat, opcode: nat, key: Bytes, form: Form, data: Bytes)

  predicate IsWire(w: Wire) {
    && w.reserved < 8 && w.opcode < 16 && (w.key == [] || |w.key| == 4)
    && |w.data| < (match w.form case Short => 126 case Medium => 0x1_0000 case Long => LENGTH_LIMIT)
  }

  function FirstByte(w: Wire): Byte
    requires IsWire(w)
  {
    (if w.fin then 128 else 0) + 16 * w.reserved + w.opcode
  }

  function LengthBytes(w: Wire): Bytes
    requires IsWire(w)
  {
    var mask := if w.key == [] then 0 else 128;
    match w.form
    case Short => [mask + |w.data|]
    case Medium => [mask + 126] + BigEndian(|w.data|, 2)
    case Long => [mask + 127] + BigEndian(|w.data|, 8)
  }

  function Front(w: Wire): Bytes
    requires IsWire(w)
  {
    [FirstByte(w)] + LengthBytes(w)
  }

  function WireBytes(w: Wire): Bytes
    requires IsWire(w)
  {
    Front(w) + (w.key + w.data)
  }

  /** Each byte of the one differs from that of the other in the bits of its key byte. */
  predicate Unmasks(key: Bytes, data: Bytes, payload: Bytes) {
    && |payload| == |data|
    && if key == [] then payload == data
       else |key| == 4 && forall i :: 0 <= i < |data| ==> DiffersIn(payload[i], data[i], key[i % 4])
  }

  lemma MaskedExactly(key: Bytes, data: Bytes, payload: Bytes)
    requires |key| == 4
    ensures Unmasks(key, data, payload) <==> payload == Masked(key, data)
  {
    hide DiffersIn, XorByte;
    forall i | 0 <= i < |data| && i < |payload|
      ensures DiffersIn(payload[i], data[i], key[i % 4]) <==> payload[i] == XorByte(data[i], key[i % 4])
    {
      XorByteExactly(data[i], key[i % 4], payload[i]);
    }
  }

  lemma WireHead(w: Wire, more: Bytes)
    requires IsWire(w)
    ensures ReadHead(WireBytes(w) + more) == Some(Head(|Front(w)|, w.key != [], |w.data|))
  {
    hide BigEndian, ReadBigEndian, FirstByte;
    var s, n, field := WireBytes(w) + more, |w.data|, LengthBytes(w);
    Widths();
    assert s[1..1 + |field|] == field;
    assert s[1] == field[0];
    match w.form {
      case Short =>
      case Medium =>
        assert s[2..4] == field[1..];
        BigEndianReads(n, 2);
      case Long =>
        assert s[2..10] == field[1..];
        BigEndianReads(n, 8);
    }
  }

  lemma WireParts(w: Wire, more: Bytes)
    requires IsWire(w)
    ensures var s, n, k := WireBytes(w) + more, |Front(w)|, |Front(w)| + |w.key|;
      && s[0] == FirstByte(w) && s[n..k] == w.key && k + |w.data| == |WireBytes(w)| && s[k..k + |w.data|] == w.data
      && |WireBytes(w)| < LENGTH_LIMIT + 14
  {
    hide FirstByte;
    assert WireBytes(w) + more == Front(w) + w.key + w.data + more;
  }

  lemma TopBit(w: Wire)
    requires IsWire(w)
    ensures FirstByte(w) >= 0x80 <==> w.fin
    ensures FirstByte(w) % 16 == w.opcode
  {
  }

  lemma WireFrame(w: Wire, payload: Bytes, more: Bytes)
    requires IsWire(w) && Unmasks(w.key, w.data, payload)
    ensures var s, h := WireBytes(w) + more, Head(|Front(w)|, w.key != [], |w.data|);
      && 2 <= h.size && Start(h) + h.length == |WireBytes(w)| <= |s|
      && FrameAt(s, h) == Frame(w.fin, w.opcode, w.key, payload)
  {
    hide WireBytes, Front, FirstByte, IsWire, Unmasks, Masked;
    WireParts(w, more);
    TopBit(w);
    KeyOrNone(w, payload);
    if w.key != [] { MaskedExactly(w.key, w.data, payload); }
  }

  /** Every frame of the standard's layout, in any length form, is read as what it says, whatever follows. */
  lemma WireRead(w: Wire, payload: Bytes, more: Bytes)
    requires IsWire(w) && Unmasks(w.key, w.data, payload)
    ensures ReadFrame(WireBytes(w) + more) == Reads(Frame(w.fin, w.opcode, w.key, payload), |WireBytes(w)|)
  {
    hide ReadFrame, WireBytes, Front, FirstByte, IsWire, Unmasks, ReadHead, FrameAt;
    WireHead(w, more);
    WireParts(w, more);
    WireFrame(w, payload, more);
    FrameFits(WireBytes(w) + more);
  }

  lemma KeyOrNone(w: Wire, payload: Bytes)
    requires IsWire(w) && Unmasks(w.key, w.data, payload)
    ensures w.key == [] ==> payload == w.data
    ensures w.key != [] ==> |w.key| == 4
    ensures |Front(w)| >= 2
  {
  }

  /** What is written is such a frame: final, nothing reserved, in the shortest form. */
  lemma WireWritten(m: Message)
    requires Sendable(m)
    ensures var n := |m.payload|;
      var w := Wire(true, 0, m.opcode % 16, m.key, if n < 126 then Short else if n < 0x1_0000 then Medium else Long, Body(m));
      IsWire(w) && Encode(m) == WireBytes(w) && Unmasks(m.key, w.data, m.payload)
  {
    hide BigEndian, Masked, Body;
    BodyIs(m);
    if m.key != [] {
      MaskedTwice(m.key, m.payload);
      MaskedExactly(m.key, Body(m), m.payload);
    }
    var n := |m.payload|;
    var w := Wire(true, 0, m.opcode % 16, m.key, if n < 126 then Short else if n < 0x1_0000 then Medium else Long, Body(m));
    assert Front(w) + (m.key + Body(m)) == [FirstByte(w)] + (LengthBytes(w) + (m.key + Body(m)));
  }

  const HELLO: Bytes := [0x48, 0x65, 0x6C, 0x6C, 0x6F]
  const HELLO_KEY: Bytes := [0x37, 0xFA, 0x21, 0x3D]
  const HELLO_WIRE: Bytes := [0x81, 0x85, 0x37, 0xFA, 0x21, 0x3D, 0x7F, 0x9F, 0x4D, 0x51, 0x58]

  /** The masked "Hello" of section 5.7 of RFC 6455, read and written. */
  lemma HelloExample()
    ensures ReadAll(HELLO_WIRE) == Some(([Frame(true, 1, HELLO_KEY, HELLO)], []))
    ensures Encode(Message(1, HELLO, HELLO_KEY)) == HELLO_WIRE
  {
    hide Encode, ReadFrame;
    HelloEncoded();
    FrameOfEncoded(Message(1, HELLO, HELLO_KEY), []);
    assert HELLO_WIRE + [] == HELLO_WIRE && HELLO_WIRE[|HELLO_WIRE|..] == [];
    ReadNothing();
    assert [Frame(true, 1, HELLO_KEY, HELLO)] + [] == [Frame(true, 1, HELLO_KEY, HELLO)];
  }

  lemma HelloEncoded()
    ensures Encode(Message(1, HELLO, HELLO_KEY)) == HELLO_WIRE
  {
    hide Masked;
    BodyIs(Message(1, HELLO, HELLO_KEY));
    HelloMasked();
  }

  lemma HelloMasked()
    ensures Masked(HELLO_KEY, HELLO) == [0x7F, 0x9F, 0x4D, 0x51, 0x58]
  {
    hide XorByte;
    HelloBytes();
  }

  lemma HelloBytes()
    ensures XorByte(0x48, 0x37) == 0x7F && XorByte(0x65, 0xFA) == 0x9F && XorByte(0x6C, 0x21) == 0x4D
    ensures XorByte(0x6C, 0x3D) == 0x51 && XorByte(0x6F, 0x37) == 0x58
  {
  }
}
