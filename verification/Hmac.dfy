// HMAC-SHA256 (modules/utils/src/hash.c): the streaming code, whose primed
// contexts may be copied, against the definition of RFC 2104.
module Hmac {
  import opened Octets
  import opened Sha256

  // ---------------------------------------------------------------------
  // HMAC, as section 2 of RFC 2104 defines it
  // ---------------------------------------------------------------------

  /** The key as one block: hashed when longer, padded with zeros. */
  function KeyBlock(c: Compress, key: Bytes): (k: Bytes)
    ensures |k| == BLOCK
  {
    if |key| > BLOCK then Hash(c, key) + Zeros(BLOCK - DIGEST) else key + Zeros(BLOCK - |key|)
  }

  function Filled(b: Byte): (r: Bytes)
    ensures |r| == BLOCK
  {
    seq(BLOCK, _ => b)
  }

  function InnerPad(c: Compress, key: Bytes): (r: Bytes)
    ensures |r| == BLOCK
  {
    Xor(KeyBlock(c, key), Filled(0x36))
  }

  function OuterPad(c: Compress, key: Bytes): (r: Bytes)
    ensures |r| == BLOCK
  {
    Xor(KeyBlock(c, key), Filled(0x5c))
  }

  function HmacOf(c: Compress, key: Bytes, text: Bytes): (d: Bytes)
    ensures |d| == DIGEST
  {
    Hash(c, OuterPad(c, key) + Hash(c, InnerPad(c, key) + text))
  }

  /** Keys up to a block long give the same code exactly when they differ only in trailing zeros. */
  lemma KeyBlockInjective(c: Compress, a: Bytes, b: Bytes)
    requires |a| <= |b| <= BLOCK
    ensures KeyBlock(c, a) == KeyBlock(c, b) <==> b == a + Zeros(|b| - |a|)
  {
    var p, q := KeyBlock(c, a), KeyBlock(c, b);
    if p == q { assert b == p[..|b|]; }
    assert a + Zeros(|b| - |a|) + Zeros(BLOCK - |b|) == p;
  }

  /** The streaming code: an inner context and an outer one that is only primed. */
  class HmacContext {
    const inner: Context
    const outerPrimed: Context
    ghost var key: Bytes
    ghost var text: Bytes

    ghost predicate Valid() reads this, inner, inner.buffer, outerPrimed, outerPrimed.buffer {
      && inner != outerPrimed && inner.buffer != outerPrimed.buffer
      && inner.compress == outerPrimed.compress
      && inner.Valid() && inner.Counted() && outerPrimed.Valid() && outerPrimed.Counted()
      && inner.message == InnerPad(inner.compress, key) + text
      && outerPrimed.message == OuterPad(inner.compress, key)
    }

    constructor (c: Compress, k: Bytes)
      ensures Valid() && fresh(inner) && fresh(inner.buffer) && fresh(outerPrimed) && fresh(outerPrimed.buffer)
      ensures key == k && text == [] && inner.compress == c
    {
      hide Process, BitCount, Hash;
      var block := k;
      if |k| > BLOCK { block := HashOf(c, k); }
      block := block + Zeros(BLOCK - |block|);
      var ipad := Xor(block, Filled(0x36));
      var opad := Xor(block, Filled(0x5c));
      inner := new Context(c);
      outerPrimed := new Context(c);
      key := k;
      text := [];
      new;
      inner.Update(ipad);
      outerPrimed.Update(opad);
      assert [] + ipad == ipad + [] && [] + opad == opad;
    }

    /** The struct copy C makes of a primed context. */
    constructor Copy(from: HmacContext)
      requires from.Valid()
      ensures Valid() && fresh(inner) && fresh(inner.buffer) && fresh(outerPrimed) && fresh(outerPrimed.buffer)
      ensures key == from.key && text == from.text && inner.compress == from.inner.compress
    {
      inner := new Context.Copy(from.inner);
      outerPrimed := new Context.Copy(from.outerPrimed);
      key := from.key;
      text := from.text;
    }

    method Update(data: Bytes)
      requires Valid()
      modifies this`text, inner, inner.buffer
      ensures Valid() && key == old(key) && text == old(text) + data
    {
      hide InnerPad, OuterPad;
      assert inner.Valid() && outerPrimed.Valid();
      hide Context.Valid;
      inner.Update(data);
      text := text + data;
      assert InnerPad(inner.compress, key) + old(text) + data == InnerPad(inner.compress, key) + text;
    }

    /** Resumes a copy of the primed outer context. */
    method Final() returns (digest: Bytes)
      requires Valid()
      modifies inner, inner.buffer
      ensures digest == HmacOf(inner.compress, key, text)
    {
      var innerDigest := inner.Final();
      var outer := new Context.Copy(outerPrimed);
      outer.Update(innerDigest);
      digest := outer.Final();
    }
  }

  // ---------------------------------------------------------------------
  // The standard, bit by bit
  // ---------------------------------------------------------------------

  /** The key, or its hash when it is longer than a block, followed by zeros. */
  predicate IsKeyBlock(c: Compress, key: Bytes, block: Bytes) {
    var k := if |key| <= 64 then key else Hash(c, key);
    |block| == 64 && forall i :: 0 <= i < 64 ==> block[i] == if i < |k| then k[i] else 0
  }

  /** pad is the block with the bits of b flipped in every byte. */
  predicate IsPad(block: Bytes, b: Byte, pad: Bytes) {
    |pad| == |block| && forall i :: 0 <= i < |pad| ==> DiffersIn(pad[i], block[i], b)
  }

  lemma PadIsXor(block: Bytes, b: Byte, pad: Bytes)
    requires |block| == BLOCK && IsPad(block, b, pad)
    ensures pad == Xor(block, Filled(b))
  {
    hide DiffersIn, XorByte;
    forall i | 0 <= i < BLOCK ensures pad[i] == Xor(block, Filled(b))[i] { XorByteExactly(block[i], b, pad[i]); }
  }

  /** H(K xor opad, H(K xor ipad, text)), with the exclusive ors said bit by bit. */
  lemma HmacIsStandard(c: Compress, key: Bytes, text: Bytes, block: Bytes, ipad: Bytes, opad: Bytes)
    requires IsKeyBlock(c, key, block) && IsPad(block, 0x36, ipad) && IsPad(block, 0x5c, opad)
    ensures HmacOf(c, key, text) == Hash(c, opad + Hash(c, ipad + text))
  {
    hide Hash, IsPad, Xor;
    assert block == KeyBlock(c, key);
    PadSizes(block, ipad, opad);
    PadIsXor(block, 0x36, ipad);
    PadIsXor(block, 0x5c, opad);
  }

  lemma PadSizes(block: Bytes, ipad: Bytes, opad: Bytes)
    requires IsPad(block, 0x36, ipad) && IsPad(block, 0x5c, opad)
    ensures |ipad| == |block| == |opad|
  {
  }
}
