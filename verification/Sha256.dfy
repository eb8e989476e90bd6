// Streaming SHA-256 (modules/utils/src/hash.c). The compression function is a
// parameter: what is proved here is buffering, padding and the length field.
module Sha256 {
  import opened Arithmetic
  import opened Octets

  type Word = x: int | 0 <= x < 0x1_0000_0000

  datatype State = State(a: Word, b: Word, c: Word, d: Word, e: Word, f: Word, g: Word, h: Word)

  type Compress = (State, Bytes) -> State

  const BLOCK: nat := 64
  const DIGEST: nat := 32

  function Start(): State {
    State(0x6a09e667, 0xbb67ae85, 0x3c6ef372, 0xa54ff53a, 0x510e527f, 0x9b05688c, 0x1f83d9ab, 0x5be0cd19)
  }

  /** The number of bits in n bytes, as a 64-bit field holds it. */
  function BitCount(n: nat): nat { 8 * n % MODULUS_64 }

  lemma BitCountAdd(n: nat, more: nat)
    ensures (BitCount(n) + 8 * more) % MODULUS_64 == BitCount(n + more)
  {
  }

  function DigestOf(s: State): (d: Bytes)
    ensures |d| == DIGEST
  {
    BigEndian(s.a, 4) + BigEndian(s.b, 4) + BigEndian(s.c, 4) + BigEndian(s.d, 4)
      + BigEndian(s.e, 4) + BigEndian(s.f, 4) + BigEndian(s.g, 4) + BigEndian(s.h, 4)
  }

  // ---------------------------------------------------------------------
  // The standard's definition
  // ---------------------------------------------------------------------

  /** m folded into st block by block: the state reached and the bytes of the unfinished block. */
  function Process(c: Compress, st: State, m: Bytes): (r: (State, Bytes))
    ensures |r.1| < BLOCK
    decreases |m|
  {
    if |m| < BLOCK then (st, m) else Process(c, c(st, m[..BLOCK]), m[BLOCK..])
  }

  function Zeros(n: nat): (z: Bytes)
    ensures |z| == n && forall i :: 0 <= i < n ==> z[i] == 0
  {
    seq(n, _ => 0)
  }

  /** The number of zero bytes of section 5.1.1 of FIPS 180-4. */
  function ZeroCount(length: nat): (k: nat)
    ensures k < BLOCK && (length + 1 + k) % BLOCK == BLOCK - 8
  {
    (2 * BLOCK - 9 - length % BLOCK) % BLOCK
  }

  function Padded(m: Bytes): (p: Bytes)
    ensures |p| == |m| + 9 + ZeroCount(|m|)
  {
    m + [0x80] + Zeros(ZeroCount(|m|)) + BigEndian(BitCount(|m|), 8)
  }

  function Hash(c: Compress, m: Bytes): (d: Bytes)
    ensures |d| == DIGEST
  {
    DigestOf(Process(c, Start(), Padded(m)).0)
  }

  // ---------------------------------------------------------------------
  // Laws of padding
  // ---------------------------------------------------------------------

  /** Processing can stop anywhere and go on from the unfinished block. */
  lemma {:induction false} ProcessAppend(c: Compress, st: State, a: Bytes, b: Bytes)
    ensures Process(c, st, a + b) == Process(c, Process(c, st, a).0, Process(c, st, a).1 + b)
    decreases |a|
  {
    if |a| >= BLOCK {
      assert (a + b)[..BLOCK] == a[..BLOCK] && (a + b)[BLOCK..] == a[BLOCK..] + b;
      ProcessAppend(c, c(st, a[..BLOCK]), a[BLOCK..], b);
    }
  }

  lemma {:induction false} ProcessLength(c: Compress, st: State, m: Bytes)
    ensures |Process(c, st, m).1| == |m| % BLOCK
    decreases |m|
  {
    if |m| >= BLOCK { ProcessLength(c, c(st, m[..BLOCK]), m[BLOCK..]); }
  }

  /** A padded message is whole blocks. */
  lemma PaddedWhole(c: Compress, st: State, m: Bytes)
    ensures |Padded(m)| % BLOCK == 0 && Process(c, st, Padded(m)).1 == []
  {
    hide Padded, Process, ZeroCount;
    ProcessLength(c, st, Padded(m));
  }

  /** Padding is injective on messages whose bit length fits the length field. */
  lemma PaddingInjective(a: Bytes, b: Bytes)
    requires 8 * |a| < MODULUS_64 && 8 * |b| < MODULUS_64 && Padded(a) == Padded(b)
    ensures a == b
  {
    hide Padded, BigEndian, Pow256, ZeroCount;
    PaddedParts(a);
    PaddedParts(b);
    LengthFits(8 * |a|);
    LengthFits(8 * |b|);
    BigEndianInjective(8 * |a|, 8 * |b|, 8);
  }

  lemma LengthFits(n: nat)
    requires n < MODULUS_64
    ensures n < Pow256(8) && n % MODULUS_64 == n
  {
  }

  lemma PaddedParts(m: Bytes)
    ensures var p := Padded(m);
      p[..|m|] == m && p[|p| - 8..] == BigEndian(BitCount(|m|), 8)
  {
    hide BigEndian;
  }

  // ---------------------------------------------------------------------
  // The streaming context
  // ---------------------------------------------------------------------

  class Context {
    const compress: Compress
    var state: State
    var bitLength: nat
    var bufferLen: nat
    const buffer: array<Byte>
    ghost var message: Bytes

    /** The bytes of the unfinished block. */
    function Pending(): Bytes reads this, buffer
      requires bufferLen <= buffer.Length
    {
      buffer[..bufferLen]
    }

    ghost predicate Valid() reads this, buffer {
      && bufferLen < BLOCK == buffer.Length
      && (state, Pending()) == Process(compress, Start(), message)
    }

    /** The count of bits as the 64-bit field holds it. */
    ghost predicate Counted() reads this { bitLength == BitCount(|message|) }

    constructor (c: Compress)
      ensures Valid() && Counted() && fresh(buffer) && message == [] && compress == c
    {
      compress := c;
      state := Start();
      bitLength := 0;
      bufferLen := 0;
      buffer := new Byte[BLOCK];
      message := [];
      new;
      assert buffer[..0] == [];
    }

    /** The struct copy C makes of a context. */
    constructor Copy(from: Context)
      requires from.Valid()
      ensures Valid() && fresh(buffer) && message == from.message && compress == from.compress
      ensures from.Counted() ==> Counted()
    {
      compress := from.compress;
      state := from.state;
      bitLength := from.bitLength;
      bufferLen := from.bufferLen;
      buffer := new Byte[BLOCK];
      message := from.message;
      new;
      forall i | 0 <= i < BLOCK { buffer[i] := from.buffer[i]; }
      assert buffer[..bufferLen] == from.buffer[..bufferLen];
      assert Pending() == from.Pending();
    }

    /** Copies bytes behind the pending ones. */
    method Fill(bytes: Bytes)
      requires bufferLen + |bytes| <= BLOCK == buffer.Length
      modifies this`bufferLen, buffer
      ensures bufferLen <= buffer.Length && Pending() == old(Pending()) + bytes
    {
      forall i | 0 <= i < |bytes| { buffer[bufferLen + i] := bytes[i]; }
      bufferLen := bufferLen + |bytes|;
    }

    method Absorb(bytes: Bytes)
      requires bufferLen < BLOCK == buffer.Length
      modifies this`state, this`bufferLen, buffer
      ensures bufferLen < BLOCK
      ensures (state, Pending()) == Process(compress, old(state), old(Pending()) + bytes)
    {
      var at := 0;
      ghost var whole := Pending() + bytes;
      if bufferLen > 0 {
        var needed := BLOCK - bufferLen;
        at := if |bytes| < needed then |bytes| else needed;
        Fill(bytes[..at]);
        if bufferLen == BLOCK {
          assert whole[..BLOCK] == buffer[..] && whole[BLOCK..] == bytes[at..];
          state := compress(state, buffer[..]);
          bufferLen := 0;
        } else {
          assert bytes[..at] == bytes && Pending() + bytes[at..] == whole;
        }
      } else {
        assert whole == bytes && Pending() + bytes[at..] == whole;
      }
      assert bufferLen == 0 ==> Pending() == [];
      assert at < |bytes| ==> Pending() + bytes[at..] == bytes[at..];
      while |bytes| - at >= BLOCK
        invariant 0 <= at <= |bytes| && bufferLen < BLOCK && (at < |bytes| ==> bufferLen == 0)
        invariant Process(compress, state, Pending() + bytes[at..]) == Process(compress, old(state), whole)
      {
        var rest := bytes[at..];
        assert Pending() == [] && Pending() + rest == rest;
        assert rest[..BLOCK] == bytes[at..at + BLOCK] && rest[BLOCK..] == bytes[at + BLOCK..];
        state := compress(state, bytes[at..at + BLOCK]);
        at := at + BLOCK;
        assert Pending() == [] && Pending() + bytes[at..] == bytes[at..];
      }
      if at < |bytes| {
        Fill(bytes[at..]);
      } else {
        assert Pending() + bytes[at..] == Pending();
      }
    }

    method Update(bytes: Bytes)
      requires Valid()
      modifies this`state, this`bufferLen, this`message, this`bitLength, buffer
      ensures Valid() && message == old(message) + bytes
      ensures old(Counted()) ==> Counted()
    {
      hide Process, BitCount;
      BitCountAdd(|message|, |bytes|);
      bitLength := (bitLength + 8 * |bytes|) % MODULUS_64;
      Absorb(bytes);
      ProcessAppend(compress, Start(), message, bytes);
      message := message + bytes;
    }

    method Final() returns (digest: Bytes)
      requires Valid() && Counted()
      modifies this`state, this`bufferLen, this`message, this`bitLength, buffer
      ensures digest == Hash(compress, old(message))
    {
      hide Process, BigEndian, DigestOf;
      ghost var m := message;
      var bits := bitLength;
      Update([0x80]);
      ghost var zeros := 0;
      while bufferLen != BLOCK - 8
        invariant Valid() && 0 <= zeros <= ZeroCount(|m|) && message == m + [0x80] + Zeros(zeros)
        decreases ZeroCount(|m|) - zeros
      {
        ProcessLength(compress, Start(), message);
        ZerosLeft(|m|, zeros);
        Update([0]);
        zeros := zeros + 1;
        assert Zeros(zeros) == Zeros(zeros - 1) + [0];
      }
      ProcessLength(compress, Start(), message);
      ZerosDone(|m|, zeros);
      ProcessAppend(compress, Start(), message, BigEndian(bits, 8));
      assert message + BigEndian(bits, 8) == Padded(m);
      Fill(BigEndian(bits, 8));
      assert Pending() == buffer[..];
      FullBlock(compress, state, buffer[..]);
      state := compress(state, buffer[..]);
      digest := DigestOf(state);
    }
  }

  lemma FullBlock(c: Compress, st: State, block: Bytes)
    requires |block| == BLOCK
    ensures Process(c, st, block) == (c(st, block), [])
  {
    assert block[..BLOCK] == block && block[BLOCK..] == [];
  }

  lemma ZerosLeft(length: nat, zeros: nat)
    requires zeros <= ZeroCount(length) && (length + 1 + zeros) % BLOCK != BLOCK - 8
    ensures zeros < ZeroCount(length)
  {
  }

  lemma ZerosDone(length: nat, zeros: nat)
    requires zeros <= ZeroCount(length) && (length + 1 + zeros) % BLOCK == BLOCK - 8
    ensures zeros == ZeroCount(length)
  {
  }

  method HashOf(c: Compress, data: Bytes) returns (digest: Bytes)
    ensures digest == Hash(c, data)
  {
    var ctx := new Context(c);
    ctx.Update(data);
    assert ctx.message == data;
    digest := ctx.Final();
  }

  // ---------------------------------------------------------------------
  // The standard, said another way
  // ---------------------------------------------------------------------

  /** w holds the first 32 bits of the fractional part of the square root of p, whose integer part is r. */
  predicate RootBits(w: Word, p: nat, r: nat) {
    var x := r * 0x1_0000_0000 + w;
    x * x <= p * MODULUS_64 < (x + 1) * (x + 1)
  }

  /** The initial hash value of section 5.3.3 of FIPS 180-4, from the first eight primes. */
  lemma StartIsRoots()
    ensures var s := Start();
      && RootBits(s.a, 2, 1) && RootBits(s.b, 3, 1) && RootBits(s.c, 5, 2) && RootBits(s.d, 7, 2)
      && RootBits(s.e, 11, 3) && RootBits(s.f, 13, 3) && RootBits(s.g, 17, 4) && RootBits(s.h, 19, 4)
  {
  }

  /** A one bit, zeros to the length field, and the length in bits (section 5.1.1 of FIPS 180-4). */
  lemma PaddedShape(m: Bytes)
    ensures var p := Padded(m);
      && |m| + 9 <= |p| && p[..|m|] == m && p[|m|] == 0x80
      && (forall i :: |m| < i < |p| - 8 ==> p[i] == 0)
      && (8 * |m| < MODULUS_64 ==> ReadBigEndian(p[|p| - 8..]) == 8 * |m|)
  {
    hide BigEndian, ReadBigEndian;
    PaddedParts(m);
    if 8 * |m| < MODULUS_64 {
      LengthFits(8 * |m|);
      BigEndianReads(8 * |m|, 8);
    }
  }

  lemma DigestReads(s: State)
    ensures var d := DigestOf(s);
      && ReadBigEndian(d[0..4]) == s.a && ReadBigEndian(d[4..8]) == s.b && ReadBigEndian(d[8..12]) == s.c
      && ReadBigEndian(d[12..16]) == s.d && ReadBigEndian(d[16..20]) == s.e && ReadBigEndian(d[20..24]) == s.f
      && ReadBigEndian(d[24..28]) == s.g && ReadBigEndian(d[28..32]) == s.h
  {
    hide BigEndian, ReadBigEndian;
    WordReads(s.a);
    WordReads(s.b);
    WordReads(s.c);
    WordReads(s.d);
    WordReads(s.e);
    WordReads(s.f);
    WordReads(s.g);
    WordReads(s.h);
    var d := DigestOf(s);
    assert d[0..4] == BigEndian(s.a, 4) && d[4..8] == BigEndian(s.b, 4) && d[8..12] == BigEndian(s.c, 4);
    assert d[12..16] == BigEndian(s.d, 4) && d[16..20] == BigEndian(s.e, 4) && d[20..24] == BigEndian(s.f, 4);
    assert d[24..28] == BigEndian(s.g, 4) && d[28..32] == BigEndian(s.h, 4);
  }

  lemma WordReads(w: Word)
    ensures ReadBigEndian(BigEndian(w, 4)) == w
  {
    assert Pow256(4) == 0x1_0000_0000;
    BigEndianReads(w, 4);
  }

  predicate AreBlocks(blocks: seq<Bytes>) { forall i :: 0 <= i < |blocks| ==> |blocks[i]| == BLOCK }

  function Joined(blocks: seq<Bytes>): Bytes {
    if blocks == [] then [] else Joined(blocks[..|blocks| - 1]) + blocks[|blocks| - 1]
  }

  /** The chaining value after these blocks. */
  function Chained(c: Compress, st: State, blocks: seq<Bytes>): State {
    if blocks == [] then st else c(Chained(c, st, blocks[..|blocks| - 1]), blocks[|blocks| - 1])
  }

  lemma {:induction false} ProcessChains(c: Compress, st: State, blocks: seq<Bytes>)
    requires AreBlocks(blocks)
    ensures Process(c, st, Joined(blocks)) == (Chained(c, st, blocks), [])
  {
    if blocks != [] {
      var n := |blocks| - 1;
      ProcessChains(c, st, blocks[..n]);
      ProcessAppend(c, st, Joined(blocks[..n]), blocks[n]);
      assert [] + blocks[n] == blocks[n] && blocks[n][..BLOCK] == blocks[n] && blocks[n][BLOCK..] == [];
    }
  }

  /** However the padded message is written as blocks, the hash is its chaining value. */
  lemma HashChains(c: Compress, m: Bytes, blocks: seq<Bytes>)
    requires AreBlocks(blocks) && Joined(blocks) == Padded(m)
    ensures Hash(c, m) == DigestOf(Chained(c, Start(), blocks))
  {
    hide DigestOf, Start, Process, Padded;
    ProcessChains(c, Start(), blocks);
  }
}
