// WebSocket frames (modules/web/src/websocket/websocket.c): how one is written,
// and how frames are read off a buffer that grows by arbitrary pieces.
module WebSocket {
  import opened Text
  import opened Octets
  import opened Arithmetic
  import Connection

  /** A frame as it is read; key is the masking key, empty when not masked. */
  datatype Frame = Frame(fin: bool, opcode: nat, key: Bytes, payload: Bytes)

  /** What is sent: the opcode's low four bits and the payload; a client also draws a masking key. */
  datatype Message = Message(opcode: nat, payload: Bytes, key: Bytes)

  const LENGTH_LIMIT: nat := 0x8000_0000_0000_0000

  /** Keys are absent or four bytes, and a length has its top bit clear (section 5.2 of RFC 6455). */
  predicate Sendable(m: Message) { (m.key == [] || |m.key| == 4) && |m.payload| < LENGTH_LIMIT }

  // ---------------------------------------------------------------------
  // Writing
  // ---------------------------------------------------------------------

  function Masked(key: Bytes, payload: Bytes): (r: Bytes)
    requires |key| == 4
    ensures |r| == |payload|
  {
    seq(|payload|, i requires 0 <= i < |payload| => XorByte(payload[i], key[i % 4]))
  }

  lemma MaskedTwice(key: Bytes, payload: Bytes)
    requires |key| == 4
    ensures Masked(key, Masked(key, payload)) == payload
  {
    forall i | 0 <= i < |payload| ensures Masked(key, Masked(key, payload))[i] == payload[i] {
      XorTwice(payload[i], key[i % 4]);
    }
  }

  /** The mask bit, the length and, when it needs them, its extension bytes. */
  function LengthField(masked: bool, n: nat): (b: Bytes)
    requires n < LENGTH_LIMIT
    ensures |b| == if n < 126 then 1 else if n <= 0xFFFF then 3 else 9
  {
    var bit := if masked then 0x80 else 0;
    if n < 126 then [bit + n] else if n <= 0xFFFF then [bit + 126] + BigEndian(n, 2) else [bit + 127] + BigEndian(n, 8)
  }

  function Body(m: Message): (b: Bytes)
    requires Sendable(m)
    ensures |b| == |m.payload|
  {
    if m.key == [] then m.payload else Masked(m.key, m.payload)
  }

  function Encode(m: Message): (b: Bytes)
    requires Sendable(m)
    ensures |b| >= 2
  {
    [0x80 + m.opcode % 16] + (LengthField(m.key != [], |m.payload|) + (m.key + Body(m)))
  }

  // ---------------------------------------------------------------------
  // Reading
  // ---------------------------------------------------------------------

  datatype Head = Head(size: nat, masked: bool, length: nat)

  /** The length and the size of everything before the key; None when it is not all there. */
  function ReadHead(buf: Bytes): (h: Option<Head>)
    ensures h.Some? ==> 2 <= h.value.size <= |buf| && h.value.size <= 10
  {
    if |buf| < 2 then None
    else
      var masked, n := buf[1] >= 0x80, buf[1] % 0x80;
      if n == 126 then
        if |buf| < 4 then None else Some(Head(4, masked, ReadBigEndian(buf[2..4])))
      else if n == 127 then
        if |buf| < 10 then None else Some(Head(10, masked, ReadBigEndian(buf[2..10])))
      else Some(Head(2, masked, n))
  }


  /** A sum of sizes as the code computes it, in 64 bits. */
  function Sum64(a: nat, b: nat): nat { (a + b) % MODULUS_64 }

  /** Where the payload starts. */
  function Start(h: Head): nat { if h.masked then h.size + 4 else h.size }

  /** Incomplete, or a frame and its size, or a payload taken for complete though its end is out of reach. */
  datatype Read = Waits | Overruns | Reads(frame: Frame, size: nat)

  function FrameAt(buf: Bytes, h: Head): Frame
    requires 2 <= h.size && Start(h) + h.length <= |buf|
  {
    var key, body := buf[h.size..Start(h)], buf[Start(h)..Start(h) + h.length];
    Frame(buf[0] >= 0x80, buf[0] % 16, key, if h.masked then Masked(key, body) else body)
  }

  /** What the code makes of the front of a buffer: its guard compares with the wrapped sum. */
  function ReadFrame(buf: Bytes): (r: Read)
    ensures r.Reads? ==> 2 <= r.size <= |buf|
  {
    match ReadHead(buf)
    case None => Waits
    case Some(h) =>
      if |buf| < Start(h) || |buf| < Sum64(Start(h), h.length) then Waits
      else if Start(h) + h.length >= MODULUS_64 then Overruns
      else Reads(FrameAt(buf, h), Start(h) + h.length)
  }

  /** All complete frames of a buffer and the bytes of the unfinished one; None when a frame overruns. */
  function ReadAll(buf: Bytes): (r: Option<(seq<Frame>, Bytes)>)
    decreases |buf|
  {
    var r := ReadFrame(buf);
    if r.Waits? then Some(([], buf))
    else if r.Overruns? then None
    else
      var rest := ReadAll(buf[r.size..]);
      if rest.None? then None else Some(([r.frame] + rest.value.0, rest.value.1))
  }

  // ---------------------------------------------------------------------
  // The guard and the wrap of its sum
  // ---------------------------------------------------------------------

  /** For every buffer there can be, the code's guard is the intended one exactly when the sum does not wrap. */
  lemma GuardExact(buf: Bytes, h: Head)
    requires Start(h) <= |buf| < MODULUS_64 && h.length < MODULUS_64
    ensures (|buf| < Sum64(Start(h), h.length) <==> |buf| < Start(h) + h.length)
       <==> Start(h) + h.length < MODULUS_64
  {
    var sum := Start(h) + h.length;
    if sum >= MODULUS_64 { Quotient(sum, MODULUS_64, 1, sum - MODULUS_64); }
  }

  /** A frame that overruns says it is longer than the buffer. */
  lemma OverrunsPastTheEnd(buf: Bytes)
    requires |buf| < MODULUS_64 && ReadFrame(buf).Overruns?
    ensures ReadHead(buf).Some? && Start(ReadHead(buf).value) + ReadHead(buf).value.length > |buf|
  {
  }

  /** The wrap happens: a length of 2^64 - 1 is taken for complete when only the head has come. */
  lemma LargestLengthOverruns()
    ensures var buf: Bytes := [0x82, 0x7F, 0xFF, 0xFF, 0xFF, 0xFF, 0xFF, 0xFF, 0xFF, 0xFF];
      && ReadHead(buf) == Some(Head(10, false, MODULUS_64 - 1))
      && ReadFrame(buf).Overruns? && ReadAll(buf).None?
  {
    var buf: Bytes := [0x82, 0x7F, 0xFF, 0xFF, 0xFF, 0xFF, 0xFF, 0xFF, 0xFF, 0xFF];
    var ones: Bytes := [0xFF, 0xFF, 0xFF, 0xFF, 0xFF, 0xFF, 0xFF, 0xFF];
    assert buf[2..10] == ones;
    assert BigEndian(MODULUS_64 - 1, 8) == ones by { AllOnes(); }
    assert Pow256(8) == MODULUS_64 by { Widths(); }
    BigEndianReads(MODULUS_64 - 1, 8);
    assert Sum64(10, MODULUS_64 - 1) == 9;
  }

  lemma AllOnes()
    ensures BigEndian(0xFFFF_FFFF_FFFF_FFFF, 8) == [0xFF, 0xFF, 0xFF, 0xFF, 0xFF, 0xFF, 0xFF, 0xFF]
  {
    assert BigEndian(0xFF, 1) == [0xFF];
    assert BigEndian(0xFFFF, 2) == [0xFF, 0xFF];
    assert BigEndian(0xFF_FFFF, 3) == [0xFF, 0xFF, 0xFF];
    assert BigEndian(0xFFFF_FFFF, 4) == [0xFF, 0xFF, 0xFF, 0xFF];
    assert BigEndian(0xFF_FFFF_FFFF, 5) == [0xFF, 0xFF, 0xFF, 0xFF, 0xFF];
    assert BigEndian(0xFFFF_FFFF_FFFF, 6) == [0xFF, 0xFF, 0xFF, 0xFF, 0xFF, 0xFF];
    assert BigEndian(0xFF_FFFF_FFFF_FFFF, 7) == [0xFF, 0xFF, 0xFF, 0xFF, 0xFF, 0xFF, 0xFF];
  }

  /** Of every frame whose head and key have come, start and length together stay below 2^64. */
  predicate LengthsFit(buf: Bytes)
    decreases |buf|
  {
    match ReadHead(buf)
    case None => true
    case Some(h) =>
      var end := Start(h) + h.length;
      |buf| < Start(h) || (end < MODULUS_64 && (|buf| < end || LengthsFit(buf[end..])))
  }

  lemma {:induction false} ReadsExactlyWhenFits(buf: Bytes)
    ensures ReadAll(buf).Some? <==> LengthsFit(buf)
    decreases |buf|
  {
    FrameFits(buf);
    hide ReadFrame, ReadHead;
    if ReadFrame(buf).Reads? { ReadsExactlyWhenFits(buf[ReadFrame(buf).size..]); }
  }

  /** What the guard decides, in terms of the sum that does not wrap. */
  lemma FrameFits(buf: Bytes)
    ensures match ReadHead(buf)
      case None => ReadFrame(buf).Waits?
      case Some(h) =>
        if |buf| < Start(h) then ReadFrame(buf).Waits?
        else if Start(h) + h.length >= MODULUS_64 then ReadFrame(buf).Overruns?
        else if |buf| < Start(h) + h.length then ReadFrame(buf).Waits?
        else ReadFrame(buf) == Reads(FrameAt(buf, h), Start(h) + h.length)
  {
    hide ReadBigEndian, Masked;
    if ReadHead(buf).Some? {
      var h := ReadHead(buf).value;
      var sum := Start(h) + h.length;
      HeadLength(buf);
      if sum >= MODULUS_64 { Quotient(sum, MODULUS_64, 1, sum - MODULUS_64); }
    }
  }

  lemma HeadLength(buf: Bytes)
    requires ReadHead(buf).Some?
    ensures ReadHead(buf).value.length < MODULUS_64
  {
    hide ReadBigEndian;
    if |buf| >= 4 { FieldBound(buf[2..4]); }
    if |buf| >= 10 { FieldBound(buf[2..10]); }
    Widths();
  }

  lemma {:induction false} FieldBound(b: Bytes)
    ensures ReadBigEndian(b) < Pow256(|b|)
  {
    if b != [] { FieldBound(b[..|b| - 1]); }
  }

  // ---------------------------------------------------------------------
  // Reading does not depend on how the bytes arrive
  // ---------------------------------------------------------------------

  lemma HeadStable(a: Bytes, b: Bytes)
    requires ReadHead(a).Some?
    ensures ReadHead(a + b) == ReadHead(a)
  {
    var c := a + b;
    assert c[0] == a[0] && c[1] == a[1];
    if |a| >= 4 { assert c[2..4] == a[2..4]; }
    if |a| >= 10 { assert c[2..10] == a[2..10]; }
  }

  lemma FrameStable(a: Bytes, b: Bytes)
    requires !ReadFrame(a).Waits?
    ensures ReadFrame(a + b) == ReadFrame(a)
  {
    FrameFits(a);
    FrameFits(a + b);
    HeadStable(a, b);
    hide ReadHead, ReadFrame, FrameAt;
    if ReadFrame(a).Reads? { FrameAtStable(a, b, ReadHead(a).value); }
  }

  lemma FrameAtStable(a: Bytes, b: Bytes, h: Head)
    requires 2 <= h.size && Start(h) + h.length <= |a|
    ensures FrameAt(a + b, h) == FrameAt(a, h)
  {
    hide Masked;
    assert (a + b)[h.size..Start(h)] == a[h.size..Start(h)];
    assert (a + b)[Start(h)..Start(h) + h.length] == a[Start(h)..Start(h) + h.length];
  }

  /** Reading on from what a first reading left, with more bytes. */
  function ReadOn(first: Option<(seq<Frame>, Bytes)>, more: Bytes): Option<(seq<Frame>, Bytes)> {
    if first.None? then None
    else
      var rest := ReadAll(first.value.1 + more);
      if rest.None? then None else Some((first.value.0 + rest.value.0, rest.value.1))
  }

  /** Reading what has come, keeping the rest, and reading on when more comes is reading it all at once. */
  lemma {:induction false} ReadInTwo(a: Bytes, b: Bytes)
    ensures ReadAll(a + b) == ReadOn(ReadAll(a), b)
    decreases |a|
  {
    hide ReadFrame;
    var r := ReadFrame(a);
    if !r.Waits? { FrameStable(a, b); }
    if r.Reads? {
      assert (a + b)[r.size..] == a[r.size..] + b;
      ReadInTwo(a[r.size..], b);
      var first := ReadAll(a[r.size..]);
      if first.Some? && ReadAll(first.value.1 + b).Some? {
        var later := ReadAll(first.value.1 + b).value.0;
        assert [r.frame] + (first.value.0 + later) == [r.frame] + first.value.0 + later;
      }
    } else if r.Waits? && ReadAll(a + b).Some? {
      assert [] + ReadAll(a + b).value.0 == ReadAll(a + b).value.0;
    }
  }

  function Flat(pieces: seq<Bytes>): Bytes {
    if pieces == [] then [] else Flat(pieces[..|pieces| - 1]) + pieces[|pieces| - 1]
  }

  /** Reads after every piece; what is left over waits for the next. */
  function ReadPieces(pieces: seq<Bytes>): Option<(seq<Frame>, Bytes)> {
    if pieces == [] then Some(([], []))
    else ReadOn(ReadPieces(pieces[..|pieces| - 1]), pieces[|pieces| - 1])
  }

  /** Cutting the bytes changes nothing, not even whether a frame overruns, which the bytes alone decide. */
  lemma {:induction false} PiecesDoNotMatter(pieces: seq<Bytes>)
    ensures ReadPieces(pieces) == ReadAll(Flat(pieces))
    ensures ReadPieces(pieces).Some? <==> LengthsFit(Flat(pieces))
  {
    hide ReadFrame, ReadAll, LengthsFit;
    if pieces == [] {
      assert ReadAll([]) == Some(([], [])) by { ReadNothing(); }
    } else {
      var n := |pieces| - 1;
      PiecesDoNotMatter(pieces[..n]);
      ReadInTwo(Flat(pieces[..n]), pieces[n]);
    }
    ReadsExactlyWhenFits(Flat(pieces));
  }

  lemma ReadNothing()
    ensures ReadAll([]) == Some(([], []))
  {
  }

  // ---------------------------------------------------------------------
  // The round trip
  // ---------------------------------------------------------------------

  /** The frame a receiver sees: final, with the opcode's low bits. */
  function Seen(m: Message): Frame { Frame(true, m.opcode % 16, m.key, m.payload) }

  function SeenAll(ms: seq<Message>): (fs: seq<Frame>)
    ensures |fs| == |ms| && forall i :: 0 <= i < |ms| ==> fs[i] == Seen(ms[i])
  {
    if ms == [] then [] else [Seen(ms[0])] + SeenAll(ms[1..])
  }

  lemma Widths()
    ensures Pow256(2) == 0x1_0000 && Pow256(8) == MODULUS_64 > LENGTH_LIMIT
  {
  }

  lemma HeadOfEncoded(m: Message, more: Bytes)
    requires Sendable(m)
    ensures ReadHead(Encode(m) + more) == Some(HeadOf(m))
  {
    hide Masked, BigEndian, ReadBigEndian, Body;
    var n := |m.payload|;
    var s := Encode(m) + more;
    var field := LengthField(m.key != [], n);
    Widths();
    assert s[1..1 + |field|] == field;
    assert s[1] == field[0];
    if 126 <= n <= 0xFFFF {
      assert s[2..4] == field[1..];
      BigEndianReads(n, 2);
    } else if n > 0xFFFF {
      assert s[2..10] == field[1..];
      BigEndianReads(n, 8);
    }
  }

  lemma FrameOfEncoded(m: Message, more: Bytes)
    requires Sendable(m)
    ensures ReadFrame(Encode(m) + more) == Reads(Seen(m), |Encode(m)|)
  {
    hide ReadFrame, FrameAt, LengthField;
    HeadOfEncoded(m, more);
    FrameFits(Encode(m) + more);
    EncodedSize(m);
    FrameAtEncoded(m, more);
  }

  /** The head that an encoded message starts with. */
  function HeadOf(m: Message): Head requires Sendable(m) {
    Head(1 + |LengthField(m.key != [], |m.payload|)|, m.key != [], |m.payload|)
  }

  lemma EncodedSize(m: Message)
    requires Sendable(m)
    ensures |Encode(m)| == Start(HeadOf(m)) + |m.payload| < MODULUS_64
  {
    hide LengthField;
  }

  lemma FrameAtEncoded(m: Message, more: Bytes)
    requires Sendable(m)
    ensures Start(HeadOf(m)) + |m.payload| <= |Encode(m) + more|
    ensures FrameAt(Encode(m) + more, HeadOf(m)) == Seen(m)
  {
    hide Masked, LengthField, Body;
    EncodedSize(m);
    var s, h := Encode(m) + more, HeadOf(m);
    var front := [0x80 + m.opcode % 16] + LengthField(m.key != [], |m.payload|);
    assert s == front + (m.key + (Body(m) + more));
    assert s[0] == 0x80 + m.opcode % 16;
    assert s[h.size..Start(h)] == m.key;
    assert s[Start(h)..Start(h) + |m.payload|] == Body(m);
    BodyIs(m);
    if h.masked { MaskedTwice(m.key, m.payload); }
  }

  lemma BodyIs(m: Message)
    requires Sendable(m)
    ensures Body(m) == if m.key == [] then m.payload else Masked(m.key, m.payload)
  {
  }

  /** Part of a frame is not taken for a frame. */
  lemma PartIsIncomplete(m: Message, n: nat)
    requires Sendable(m) && n < |Encode(m)|
    ensures ReadFrame(Encode(m)[..n]).Waits?
  {
    hide ReadFrame, Encode;
    var part := Encode(m)[..n];
    assert part + Encode(m)[n..] == Encode(m) && Encode(m) + [] == Encode(m);
    FrameOfEncoded(m, []);
    if !ReadFrame(part).Waits? { FrameStable(part, Encode(m)[n..]); }
  }

  function EncodeAll(ms: seq<Message>): Bytes
    requires forall m :: m in ms ==> Sendable(m)
  {
    if ms == [] then [] else Encode(ms[0]) + EncodeAll(ms[1..])
  }

  /**
    * Frames written one after the other, the last one perhaps not all there,
    * and read as the bytes arrive in any pieces: the same frames in order, and
    * exactly the bytes of the unfinished one stay in the buffer.
    */
  lemma {:induction false} StreamRoundTrip(ms: seq<Message>, last: Message, n: nat, pieces: seq<Bytes>)
    requires (forall m :: m in ms ==> Sendable(m)) && Sendable(last) && n < |Encode(last)|
    requires Flat(pieces) == EncodeAll(ms) + Encode(last)[..n]
    ensures ReadPieces(pieces) == Some((SeenAll(ms), Encode(last)[..n]))
  {
    hide Encode, ReadFrame;
    PiecesDoNotMatter(pieces);
    ReadEncoded(ms, last, n);
  }

  lemma {:induction false} ReadEncoded(ms: seq<Message>, last: Message, n: nat)
    requires (forall m :: m in ms ==> Sendable(m)) && Sendable(last) && n < |Encode(last)|
    ensures ReadAll(EncodeAll(ms) + Encode(last)[..n]) == Some((SeenAll(ms), Encode(last)[..n]))
  {
    hide Encode, ReadFrame;
    var part := Encode(last)[..n];
    if ms == [] {
      PartIsIncomplete(last, n);
      assert EncodeAll([]) + part == part;
    } else {
      var rest := EncodeAll(ms[1..]) + part;
      ReadEncoded(ms[1..], last, n);
      FrameOfEncoded(ms[0], rest);
      assert EncodeAll(ms) + part == Encode(ms[0]) + rest;
      assert (Encode(ms[0]) + rest)[|Encode(ms[0])|..] == rest;
    }
  }

  /** No head that says this length is shorter than the one written. */
  lemma ShortestLength(m: Message, buf: Bytes)
    requires Sendable(m) && ReadHead(buf).Some? && ReadHead(buf).value.length == |m.payload|
    ensures 1 + |LengthField(m.key != [], |m.payload|)| <= ReadHead(buf).value.size
  {
    if ReadHead(buf).value.size == 4 {
      TwoBytes(buf[2..4]);
    }
  }

  lemma TwoBytes(b: Bytes)
    requires |b| == 2
    ensures ReadBigEndian(b) <= 0xFFFF
  {
    assert b[..1][..0] == [];
    assert ReadBigEndian(b[..1]) == b[0];
  }

  // ---------------------------------------------------------------------
  // The code
  // ---------------------------------------------------------------------

  lemma {:induction false} BigEndianAt(n: nat, width: nat, i: nat)
    requires i < width
    ensures BigEndian(n, width)[i] == n / Pow256(width - 1 - i) % 256
  {
    if i < width - 1 {
      BigEndianAt(n / 256, width - 1, i);
      DivideTwice(n, Pow256(width - 2 - i));
    }
  }

  lemma DivideTwice(n: nat, p: nat)
    requires p > 0
    ensures n / 256 / p == n / (256 * p)
  {
    var q, r := n / (256 * p), n % (256 * p);
    assert n == 256 * (p * q) + r;
    assert n / 256 == p * q + r / 256;
    Quotient(n / 256, p, q, r / 256);
  }

  /** The length bytes, most significant first. */
  method PutBigEndian(out: array<Byte>, pos: nat, n: nat, width: nat) returns (next: nat)
    requires pos + width <= out.Length
    modifies out
    ensures next == pos + width && out[..next] == old(out[..pos]) + BigEndian(n, width)
  {
    hide BigEndian, Pow256;
    ghost var before := out[..pos];
    for i := 0 to width
      invariant out[..pos + i] == before + BigEndian(n, width)[..i]
    {
      BigEndianAt(n, width, i);
      out[pos + i] := n / Pow256(width - 1 - i) % 256;
    }
    next := pos + width;
    assert BigEndian(n, width)[..width] == BigEndian(n, width);
  }

  method PutBytes(out: array<Byte>, pos: nat, b: Bytes) returns (next: nat)
    requires pos + |b| <= out.Length
    modifies out
    ensures next == pos + |b| && out[..next] == old(out[..pos]) + b
  {
    forall i | 0 <= i < |b| { out[pos + i] := b[i]; }
    next := pos + |b|;
  }

  method PutMasked(out: array<Byte>, pos: nat, key: Bytes, payload: Bytes) returns (next: nat)
    requires pos + |payload| <= out.Length && |key| == 4
    modifies out
    ensures next == pos + |payload| && out[..next] == old(out[..pos]) + Masked(key, payload)
  {
    hide XorByte;
    ghost var before := out[..pos];
    for i := 0 to |payload|
      invariant out[..pos + i] == before + Masked(key, payload)[..i]
    {
      out[pos + i] := XorByte(payload[i], key[i % 4]);
    }
    next := pos + |payload|;
    assert Masked(key, payload)[..|payload|] == Masked(key, payload);
  }

  method PutHead(out: array<Byte>, m: Message) returns (pos: nat)
    requires Sendable(m) && out.Length >= 1 + |LengthField(m.key != [], |m.payload|)|
    modifies out
    ensures pos == 1 + |LengthField(m.key != [], |m.payload|)|
    ensures out[..pos] == [0x80 + m.opcode % 16] + LengthField(m.key != [], |m.payload|)
  {
    hide BigEndian;
    var n, bit := |m.payload|, if m.key != [] then 0x80 else 0;
    out[0] := 0x80 + m.opcode % 16;
    if n < 126 {
      out[1] := bit + n;
      pos := 2;
    } else if n <= 0xFFFF {
      out[1] := bit + 126;
      assert out[..2] == [0x80 + m.opcode % 16, bit + 126];
      pos := PutBigEndian(out, 2, n, 2);
    } else {
      out[1] := bit + 127;
      assert out[..2] == [0x80 + m.opcode % 16, bit + 127];
      pos := PutBigEndian(out, 2, n, 8);
    }
  }

  method QueueFrame(conn: Connection.Connection, m: Message)
    requires conn.Valid() && Sendable(m)
    modifies conn`writeData, conn`queued
    ensures conn.Valid() && conn.queued == old(conn.queued) + Encode(m)
  {
    hide LengthField, Masked;
    var extension := if |m.payload| > 0xFFFF then 8 else if |m.payload| >= 126 then 2 else 0;
    var out := new Byte[2 + extension + |m.key| + |m.payload|];
    LengthFieldSize(m.key != [], |m.payload|);
    var pos := PutHead(out, m);
    ghost var head := out[..pos];
    if m.key != [] {
      pos := PutBytes(out, pos, m.key);
      pos := PutMasked(out, pos, m.key, m.payload);
    } else {
      pos := PutBytes(out, pos, m.payload);
    }
    assert out[..pos] == head + (m.key + Body(m));
    assert head + (m.key + Body(m)) == Encode(m);
    conn.BufferAdd(out[..pos]);
  }

  lemma LengthFieldSize(masked: bool, n: nat)
    requires n < LENGTH_LIMIT
    ensures |LengthField(masked, n)| == 1 + if n > 0xFFFF then 8 else if n >= 126 then 2 else 0
  {
  }

  /**
    * None, and nothing changed, when not even one frame is complete. overrun: a
    * frame of the buffer is longer than the sums of the code can hold; C then
    * copies bytes that are not there, and here nothing more is done.
    */
  method ReadFrames(conn: Connection.Connection) returns (frames: Option<seq<Frame>>, overrun: bool)
    requires conn.Valid()
    modifies conn`bufferLength, conn.buffer
    ensures conn.Valid() && (overrun <==> !LengthsFit(old(conn.Received())))
    ensures !overrun ==>
      var all := ReadAll(old(conn.Received()));
      all.Some? && conn.Received() == all.value.1 && frames == if all.value.0 == [] then None else Some(all.value.0)
  {
    hide ReadFrame, ReadAll, LengthsFit;
    hide Connection.InBounds, Connection.Unsent;
    var consumed := 0;
    var got: seq<Frame> := [];
    ghost var whole := conn.Received();
    ReadsExactlyWhenFits(whole);
    JoinedStart(whole);
    while true
      invariant conn.Valid() && conn.Received() == whole
      invariant 0 <= consumed <= conn.bufferLength && (consumed == 0 <==> got == [])
      invariant Joined(ReadAll(whole), got, ReadAll(whole[consumed..]))
      decreases conn.bufferLength - consumed
    {
      var rest := conn.buffer[consumed..conn.bufferLength];
      assert rest == whole[consumed..];
      var r := ReadOne(rest);
      ReadNext(ReadAll(whole), got, rest);
      if r.Overruns? { return None, true; }
      if r.Waits? { break; }
      assert whole[consumed..][r.size..] == whole[consumed + r.size..];
      got := got + [r.frame];
      consumed := consumed + r.size;
    }
    overrun := false;
    if consumed == 0 { return None, false; }
    DropFront(conn, consumed);
    frames := Some(got);
  }

  /** Moves what follows the consumed bytes to the front of the buffer. */
  method DropFront(conn: Connection.Connection, consumed: nat)
    requires conn.Valid() && consumed <= conn.bufferLength
    modifies conn`bufferLength, conn.buffer
    ensures conn.Valid() && conn.Received() == old(conn.Received())[consumed..]
  {
    var remaining := conn.bufferLength - consumed;
    forall i | 0 <= i < remaining { conn.buffer[i] := conn.buffer[consumed + i]; }
    conn.bufferLength := remaining;
  }

  /** all is what got has and then what rest has. */
  predicate Joined(all: Option<(seq<Frame>, Bytes)>, got: seq<Frame>, rest: Option<(seq<Frame>, Bytes)>) {
    if rest.None? then all.None? else all == Some((got + rest.value.0, rest.value.1))
  }

  lemma JoinedStart(whole: Bytes)
    ensures Joined(ReadAll(whole), [], ReadAll(whole[0..]))
  {
    hide ReadAll;
    assert whole[0..] == whole;
    if ReadAll(whole).Some? { assert [] + ReadAll(whole).value.0 == ReadAll(whole).value.0; }
  }

  lemma ReadNext(all: Option<(seq<Frame>, Bytes)>, got: seq<Frame>, rest: Bytes)
    requires Joined(all, got, ReadAll(rest))
    ensures var r := ReadFrame(rest);
      if r.Waits? then all == Some((got, rest))
      else if r.Overruns? then all.None?
      else Joined(all, got + [r.frame], ReadAll(rest[r.size..]))
  {
    hide ReadFrame;
    var r := ReadFrame(rest);
    if r.Waits? {
      assert got + [] == got;
    } else if r.Reads? && ReadAll(rest[r.size..]).Some? {
      var later := ReadAll(rest[r.size..]).value.0;
      assert got + ([r.frame] + later) == got + [r.frame] + later;
    }
  }

  method HeadAt(buf: Bytes) returns (h: Option<Head>)
    ensures h == ReadHead(buf)
  {
    hide ReadBigEndian;
    var available := |buf|;
    if available < 2 { return None; }
    var masked, length := buf[1] >= 0x80, buf[1] % 0x80;
    if length == 126 {
      if available < 4 { return None; }
      return Some(Head(4, masked, ReadBigEndian(buf[2..4])));
    } else if length == 127 {
      if available < 10 { return None; }
      return Some(Head(10, masked, ReadBigEndian(buf[2..10])));
    }
    return Some(Head(2, masked, length));
  }

  method ReadOne(buf: Bytes) returns (r: Read)
    ensures r == ReadFrame(buf)
  {
    hide ReadHead, ReadFrame, Masked;
    FrameFits(buf);
    var head := HeadAt(buf);
    if head.None? { return Waits; }
    var h := head.value;
    var offset := h.size;
    if h.masked {
      if |buf| < offset + 4 { return Waits; }
      offset := offset + 4;
    }
    GuardSum(buf, h);
    if |buf| < Sum64(offset, h.length) { return Waits; }
    if offset + h.length >= MODULUS_64 { return Overruns; }
    var key := buf[h.size..offset];
    var payload := Unmask(h.masked, key, buf[offset..offset + h.length]);
    return Reads(Frame(buf[0] >= 0x80, buf[0] % 16, key, payload), offset + h.length);
  }

  /** The wrapped sum is small, so the guard lets the frame pass. */
  lemma GuardSum(buf: Bytes, h: Head)
    requires ReadHead(buf) == Some(h) && Start(h) <= |buf|
    ensures Sum64(Start(h), h.length)
      == if Start(h) + h.length < MODULUS_64 then Start(h) + h.length else Start(h) + h.length - MODULUS_64
    ensures Start(h) + h.length >= MODULUS_64 ==> Sum64(Start(h), h.length) < |buf|
  {
    hide ReadBigEndian;
    HeadLength(buf);
    var sum := Start(h) + h.length;
    if sum >= MODULUS_64 { Quotient(sum, MODULUS_64, 1, sum - MODULUS_64); }
  }

  method Unmask(masked: bool, key: Bytes, body: Bytes) returns (payload: Bytes)
    requires masked ==> |key| == 4
    ensures payload == if masked then Masked(key, body) else body
  {
    if !masked { return body; }
    hide Masked;
    var plain := new Byte[|body|];
    var next := PutMasked(plain, 0, key, body);
    assert plain[..0] == [] && plain[..next] == plain[..];
    return plain[..];
  }
}
