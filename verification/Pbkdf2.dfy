// PBKDF2-HMAC-SHA256 (modules/security/src/pbkdf2.c): nested loops over copies
// of one primed HMAC state, against section 5.2 of RFC 8018.
module Pbkdf2 {
  import opened Octets
  import opened Sha256
  import opened Hmac

  datatype Inputs = Inputs(c: Compress, password: Bytes, salt: Bytes, iterations: nat)

  /** The iteration count used: zero counts as one. */
  function Rounds(x: Inputs): (n: nat)
    ensures n >= 1
  {
    if x.iterations == 0 then 1 else x.iterations
  }

  /** U_n of block i; the block number is written as four octets. */
  function U(x: Inputs, i: nat, n: nat): (u: Bytes)
    requires n >= 1
    ensures |u| == DIGEST
  {
    HmacOf(x.c, x.password, if n == 1 then x.salt + BigEndian(i, 4) else U(x, i, n - 1))
  }

  /** U_1 xor ... xor U_n. */
  function XorOfU(x: Inputs, i: nat, n: nat): (t: Bytes)
    requires n >= 1
    ensures |t| == DIGEST
  {
    if n == 1 then U(x, i, 1) else Xor(XorOfU(x, i, n - 1), U(x, i, n))
  }

  /** T_1 ... T_n, one after the other. */
  function Blocks(x: Inputs, n: nat): (t: Bytes)
    ensures |t| == n * DIGEST
  {
    if n == 0 then [] else Blocks(x, n - 1) + XorOfU(x, n, Rounds(x))
  }

  function BlockCount(length: nat): (n: nat)
    ensures n * DIGEST >= length && (n > 0 ==> (n - 1) * DIGEST < length)
  {
    (length + DIGEST - 1) / DIGEST
  }

  /** The first length bytes of enough blocks. */
  function Derived(x: Inputs, length: nat): (k: Bytes)
    ensures |k| == length
  {
    Blocks(x, BlockCount(length))[..length]
  }

  lemma {:induction false} BlocksPrefix(x: Inputs, m: nat, n: nat)
    requires m <= n
    ensures Blocks(x, n)[..m * DIGEST] == Blocks(x, m)
  {
    hide XorOfU;
    if m < n {
      BlocksPrefix(x, m, n - 1);
      assert Blocks(x, n)[..m * DIGEST] == Blocks(x, n - 1)[..m * DIGEST];
    }
  }

  /** A shorter key is the beginning of a longer one. */
  lemma DerivedPrefix(x: Inputs, short: nat, long: nat)
    requires short <= long
    ensures Derived(x, long)[..short] == Derived(x, short)
  {
    hide Blocks;
    var m, n := BlockCount(short), BlockCount(long);
    BlocksPrefix(x, m, n);
    assert Blocks(x, n)[..m * DIGEST][..short] == Blocks(x, n)[..short];
  }

  ghost predicate Primed(x: Inputs, base: HmacContext) reads base, base.inner {
    base.key == x.password && base.text == [] && base.inner.compress == x.c
  }

  /** The inner loop: one block, U by U. */
  method DeriveBlock(x: Inputs, base: HmacContext, index: nat) returns (t: Bytes)
    requires base.Valid() && Primed(x, base)
    ensures t == XorOfU(x, index, Rounds(x))
  {
    hide HmacOf, Xor, HmacContext.Valid;
    var hmac := new HmacContext.Copy(base);
    hmac.Update(x.salt);
    hmac.Update(BigEndian(index, 4));
    assert hmac.text == x.salt + BigEndian(index, 4);
    var u := hmac.Final();
    t := u;
    var iter := 1;
    while iter < Rounds(x)
      invariant 1 <= iter <= Rounds(x) && u == U(x, index, iter) && t == XorOfU(x, index, iter)
    {
      var round := new HmacContext.Copy(base);
      round.Update(u);
      assert round.text == u;
      u := round.Final();
      t := Xor(t, u);
      iter := iter + 1;
    }
  }

  /** The octets of a number do not see what is above them. */
  lemma {:induction false} LowBytes(m: nat, k: nat, width: nat)
    ensures BigEndian(m + Pow256(width) * k, width) == BigEndian(m, width)
  {
    if width > 0 {
      var z := Pow256(width - 1) * k;
      var n := m + 256 * z;
      assert Pow256(width) * k == 256 * z;
      assert n % 256 == m % 256 && n / 256 == m / 256 + z;
      LowBytes(m / 256, k, width - 1);
    }
  }

  /** What a 32-bit counter shows after counting to n. */
  function Low32(n: nat): nat { n % 0x1_0000_0000 }

  lemma Low32Next(n: nat)
    ensures Low32(Low32(n) + 1) == Low32(n + 1)
  {
  }

  lemma LowOne()
    ensures Low32(1) == 1
  {
  }

  lemma CounterOctets(n: nat)
    ensures BigEndian(Low32(n), 4) == BigEndian(n, 4)
  {
    assert Pow256(4) == 0x1_0000_0000;
    LowBytes(n % 0x1_0000_0000, n / 0x1_0000_0000, 4);
  }

  /** A block depends on its number only through the four octets. */
  lemma {:induction false} SameOctets(x: Inputs, i: nat, j: nat, n: nat)
    requires n >= 1 && BigEndian(i, 4) == BigEndian(j, 4)
    ensures U(x, i, n) == U(x, j, n) && XorOfU(x, i, n) == XorOfU(x, j, n)
  {
    hide HmacOf, Xor, BigEndian;
    if n > 1 { SameOctets(x, i, j, n - 1); }
  }

  lemma BlockCountIs(length: nat, n: nat)
    requires n * DIGEST >= length && (n - 1) * DIGEST < length
    ensures BlockCount(length) == n
  {
  }

  /** What the output holds after index blocks, the last one cut at the end. */
  predicate Produced(x: Inputs, index: nat, produced: nat, length: nat, bytes: Bytes) {
    && produced == (if index * DIGEST < length then index * DIGEST else length)
    && (index > 0 ==> (index - 1) * DIGEST < length)
    && bytes == Blocks(x, index)[..produced]
  }

  /** The end of a turn of the outer loop: block index + 1, or what fits of it, goes out. */
  method Store(x: Inputs, ghost index: nat, out: array<Byte>, at: nat, t: Bytes) returns (next: nat)
    requires t == XorOfU(x, index + 1, Rounds(x))
    requires at < out.Length && Produced(x, index, at, out.Length, out[..at])
    modifies out
    ensures at < next <= out.Length && Produced(x, index + 1, next, out.Length, out[..next])
  {
    hide XorOfU, Produced;
    var chunk := if out.Length - at > DIGEST then DIGEST else out.Length - at;
    ghost var before := out[..at];
    ProducedNext(x, index, at, out.Length, before, t, chunk);
    next := Place(out, at, t[..chunk]);
    assert out[..next] == before + t[..chunk];
  }

  lemma ProducedNext(x: Inputs, index: nat, at: nat, length: nat, bytes: Bytes, t: Bytes, chunk: nat)
    requires at < length && Produced(x, index, at, length, bytes)
    requires t == XorOfU(x, index + 1, Rounds(x))
    requires chunk == if length - at > DIGEST then DIGEST else length - at
    ensures Produced(x, index + 1, at + chunk, length, bytes + t[..chunk])
  {
    hide XorOfU, Blocks;
    NextBlock(x, index, t, chunk);
  }

  lemma ProducedAll(x: Inputs, index: nat, length: nat, bytes: Bytes)
    requires Produced(x, index, length, length, bytes) && (index == 0 ==> length == 0)
    ensures bytes == Derived(x, length)
  {
    BlockCountIs(length, index);
  }

  /**
    * The block number is a 32-bit counter; its four octets are the low 32 bits
    * of the number, so the loop agrees with the definition at every length.
    */
  method FillOutput(x: Inputs, base: HmacContext, out: array<Byte>)
    requires base.Valid() && Primed(x, base)
    requires out != base.inner.buffer && out != base.outerPrimed.buffer
    modifies out
    ensures out[..] == Derived(x, out.Length)
  {
    hide *;
    LowOne();
    var produced, counter := 0, 1;
    ghost var index := 0;
    ProducedNothing(x, out.Length);
    assert out[..0] == [];
    while produced < out.Length
      invariant base.Valid() && Primed(x, base) && counter == Low32(index + 1)
      invariant 0 <= produced <= out.Length && (index == 0 ==> produced == 0)
      invariant Produced(x, index, produced, out.Length, out[..produced])
    {
      CounterOctets(index + 1);
      SameOctets(x, counter, index + 1, Rounds(x));
      var t := DeriveBlock(x, base, counter);
      produced := Store(x, index, out, produced, t);
      index := index + 1;
      Low32Next(index);
      counter := Low32(counter + 1);
    }
    ProducedAll(x, index, out.Length, out[..produced]);
    assert out[..] == out[..out.Length];
  }

  method Derive(x: Inputs, out: array<Byte>)
    modifies out
    ensures out[..] == Derived(x, out.Length)
  {
    if out.Length == 0 { return; }
    var base := new HmacContext(x.c, x.password);
    FillOutput(x, base, out);
  }

  lemma ProducedNothing(x: Inputs, length: nat)
    ensures Produced(x, 0, 0, length, [])
  {
  }

  /** memcpy into the output. */
  method Place(out: array<Byte>, at: nat, bytes: Bytes) returns (next: nat)
    requires at + |bytes| <= out.Length
    modifies out
    ensures next == at + |bytes| && out[..next] == old(out[..at]) + bytes
  {
    forall k | 0 <= k < |bytes| { out[at + k] := bytes[k]; }
    next := at + |bytes|;
  }

  lemma NextBlock(x: Inputs, index: nat, t: Bytes, chunk: nat)
    requires t == XorOfU(x, index + 1, Rounds(x)) && chunk <= DIGEST
    ensures Blocks(x, index + 1)[..index * DIGEST + chunk] == Blocks(x, index)[..index * DIGEST] + t[..chunk]
  {
    hide XorOfU;
    assert Blocks(x, index)[..index * DIGEST] == Blocks(x, index);
  }

  // ---------------------------------------------------------------------
  // The exclusive or of the iterates, bit by bit
  // ---------------------------------------------------------------------

  /** The iterates of one block: the first from salt and block number, every other from the one before. */
  predicate Iterates(x: Inputs, number: Bytes, us: seq<Bytes>) {
    && |number| == 4 && us != [] && us[0] == HmacOf(x.c, x.password, x.salt + number)
    && forall n :: 1 <= n < |us| ==> us[n] == HmacOf(x.c, x.password, us[n - 1])
  }

  lemma {:induction false} IteratesAre(x: Inputs, i: nat, number: Bytes, us: seq<Bytes>, n: nat)
    requires i < 0x1_0000_0000 && ReadBigEndian(number) == i && Iterates(x, number, us) && n < |us|
    ensures us[n] == U(x, i, n + 1)
  {
    hide HmacOf, BigEndian, ReadBigEndian;
    if n == 0 { ReadsBack(number); } else { IteratesAre(x, i, number, us, n - 1); }
  }

  lemma {:induction false} ReadsBack(b: Bytes)
    ensures BigEndian(ReadBigEndian(b), |b|) == b
  {
    if b != [] {
      var n := |b| - 1;
      ReadsBack(b[..n]);
      assert b == b[..n] + [b[n]];
    }
  }

  /** How many of the first n iterates have bit k of byte j set. */
  function Ones(us: seq<Bytes>, j: nat, k: nat, n: nat): nat
    requires n <= |us| && forall u :: u in us ==> j < |u|
  {
    if n == 0 then 0 else Ones(us, j, k, n - 1) + Bit(us[n - 1][j], k)
  }

  lemma IterateSizes(x: Inputs, number: Bytes, us: seq<Bytes>)
    requires Iterates(x, number, us)
    ensures forall u :: u in us ==> |u| == DIGEST
  {
    hide HmacOf;
    forall n | 0 <= n < |us| ensures |us[n]| == DIGEST {
      if n > 0 { assert us[n] == HmacOf(x.c, x.password, us[n - 1]); }
    }
  }

  lemma {:induction false} XorOfUBits(x: Inputs, i: nat, us: seq<Bytes>, j: nat, k: nat, n: nat)
    requires j < DIGEST && k < 8 && 1 <= n <= |us| && forall u :: u in us ==> |u| == DIGEST
    requires forall m :: 0 <= m < n ==> us[m] == U(x, i, m + 1)
    ensures Bit(XorOfU(x, i, n)[j], k) == Ones(us, j, k, n) % 2
  {
    hide U, Bit, XorByte, DiffersIn;
    var u := us[n - 1];
    BitRange(u[j], k);
    if n == 1 {
      assert Ones(us, j, k, 1) == Ones(us, j, k, 0) + Bit(u[j], k);
    } else {
      XorOfUBits(x, i, us, j, k, n - 1);
      var before := XorOfU(x, i, n - 1);
      XorByteExactly(before[j], u[j], XorOfU(x, i, n)[j]);
      BitDiffers(XorOfU(x, i, n)[j], before[j], u[j], k);
    }
  }

  lemma BitDiffers(x: Byte, a: Byte, b: Byte, k: nat)
    requires DiffersIn(x, a, b) && k < 8
    ensures Bit(x, k) == (Bit(a, k) + Bit(b, k)) % 2
  {
    hide Bit;
    BitRange(x, k);
    BitRange(a, k);
    BitRange(b, k);
  }

  lemma {:induction false} BlocksAt(x: Inputs, n: nat, p: nat)
    requires p < n * DIGEST
    ensures Blocks(x, n)[p] == XorOfU(x, p / DIGEST + 1, Rounds(x))[p % DIGEST]
  {
    hide XorOfU, Rounds;
    if p < (n - 1) * DIGEST { BlocksAt(x, n - 1, p); }
  }

  /**
    * Section 5.2 of RFC 8018, bit by bit: byte p of the key belongs to block
    * p / 32 + 1, and each of its bits is set exactly when an odd number of that
    * block's iterates have it set, over all the iterations asked for.
    */
  lemma DerivedBits(x: Inputs, length: nat, p: nat, k: nat, number: Bytes, us: seq<Bytes>)
    requires p < length && k < 8 && Iterates(x, number, us)
    requires ReadBigEndian(number) == p / 32 + 1 && |us| == if x.iterations == 0 then 1 else x.iterations
    ensures forall u :: u in us ==> |u| == DIGEST
    ensures Bit(Derived(x, length)[p], k) == Ones(us, p % 32, k, |us|) % 2
  {
    hide XorOfU, Blocks, Bit, Ones, Iterates, U, ReadBigEndian;
    IterateSizes(x, number, us);
    BlocksAt(x, BlockCount(length), p);
    NumberSize(x, number, us);
    FieldBound(number);
    forall m | 0 <= m < |us| ensures us[m] == U(x, p / 32 + 1, m + 1) { IteratesAre(x, p / 32 + 1, number, us, m); }
    XorOfUBits(x, p / 32 + 1, us, p % 32, k, |us|);
  }

  lemma NumberSize(x: Inputs, number: Bytes, us: seq<Bytes>)
    requires Iterates(x, number, us)
    ensures |number| == 4
  {
  }

  lemma FieldBound(b: Bytes)
    requires |b| == 4
    ensures ReadBigEndian(b) < 0x1_0000_0000
  {
    hide ReadBigEndian;
    ReadBound(b);
    assert Pow256(4) == 0x1_0000_0000;
  }

  lemma {:induction false} ReadBound(b: Bytes)
    ensures ReadBigEndian(b) < Pow256(|b|)
  {
    if b != [] { ReadBound(b[..|b| - 1]); }
  }
}
