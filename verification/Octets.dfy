// Bytes as numbers, big-endian fields and exclusive or, shared by the hash and
// WebSocket modules.
module Octets {
  import opened Arithmetic

  type Byte = x: int | 0 <= x < 256
  type Bytes = seq<Byte>

  /** The low bytes of n, most significant first. */
  function BigEndian(n: nat, width: nat): (b: Bytes)
    ensures |b| == width
  {
    if width == 0 then [] else BigEndian(n / 256, width - 1) + [n % 256]
  }

  function Pow256(n: nat): (p: nat)
    ensures p > 0
  {
    if n == 0 then 1 else 256 * Pow256(n - 1)
  }

  lemma {:induction false} BigEndianInjective(a: nat, b: nat, width: nat)
    requires a < Pow256(width) && b < Pow256(width) && BigEndian(a, width) == BigEndian(b, width)
    ensures a == b
  {
    if width > 0 {
      var p, q := BigEndian(a, width), BigEndian(b, width);
      assert p[..width - 1] == BigEndian(a / 256, width - 1) && q[..width - 1] == BigEndian(b / 256, width - 1);
      assert p[width - 1] == a % 256 && q[width - 1] == b % 256;
      BigEndianInjective(a / 256, b / 256, width - 1);
    }
  }

  /** Byte i of the field, counted from the most significant one. */
  lemma {:induction false} BigEndianAt(n: nat, width: nat, i: nat)
    requires i < width
    ensures BigEndian(n, width)[i] == n / Pow256(width - 1 - i) % 256
  {
    if i < width - 1 {
      BigEndianAt(n / 256, width - 1, i);
      DivideAgain(n, 256, Pow256(width - 2 - i));
    }
  }

  lemma DivideAgain(n: nat, a: nat, b: nat)
    requires a > 0 && b > 0
    ensures a * b > 0 && n / (a * b) == n / a / b
  {
    var m := n / a;
    var q, r, low := m / b, m % b, n % a;
    assert m == b * q + r && n == a * m + low;
    assert n == (a * b) * q + (a * r + low) by { assert a * (b * q + r) == (a * b) * q + a * r; }
    assert a * r + low < a * b by { Multiples(a, r, b); }
    Quotient(n, a * b, q, a * r + low);
  }

  function ReadBigEndian(b: Bytes): nat {
    if b == [] then 0 else 256 * ReadBigEndian(b[..|b| - 1]) + b[|b| - 1]
  }

  /** A number that fits its field is read back from it. */
  lemma {:induction false} BigEndianReads(n: nat, width: nat)
    requires n < Pow256(width)
    ensures ReadBigEndian(BigEndian(n, width)) == n
  {
    if width > 0 {
      BigEndianReads(n / 256, width - 1);
      assert BigEndian(n, width)[..width - 1] == BigEndian(n / 256, width - 1);
    }
  }

  function Pow2(n: nat): nat { if n == 0 then 1 else 2 * Pow2(n - 1) }

  /** Exclusive or of the low bits of a and b. */
  function XorBits(a: nat, b: nat, bits: nat): (r: nat)
    ensures r < Pow2(bits)
  {
    if bits == 0 then 0 else 2 * XorBits(a / 2, b / 2, bits - 1) + (if a % 2 == b % 2 then 0 else 1)
  }

  function XorByte(a: Byte, b: Byte): Byte
  {
    ByteBits();
    XorBits(a, b, 8)
  }

  lemma ByteBits()
    ensures Pow2(8) == 256
  {
  }

  function Xor(a: Bytes, b: Bytes): (r: Bytes)
    requires |a| == |b|
    ensures |r| == |a|
  {
    seq(|a|, i requires 0 <= i < |a| => XorByte(a[i], b[i]))
  }

  lemma Halves(high: nat, low: nat)
    requires low < 2
    ensures (2 * high + low) / 2 == high && (2 * high + low) % 2 == low
  {
  }

  lemma {:induction false} XorBitsTwice(a: nat, b: nat, bits: nat)
    requires a < Pow2(bits)
    ensures XorBits(XorBits(a, b, bits), b, bits) == a
  {
    if bits > 0 {
      var high, low := XorBits(a / 2, b / 2, bits - 1), if a % 2 == b % 2 then 0 else 1;
      Halves(high, low);
      XorBitsTwice(a / 2, b / 2, bits - 1);
      Halves(a / 2, a % 2);
    }
  }

  lemma XorTwice(a: Byte, b: Byte)
    ensures XorByte(XorByte(a, b), b) == a
  {
    hide XorBits;
    ByteBits();
    XorBitsTwice(a, b, 8);
  }

  // ---------------------------------------------------------------------
  // Exclusive or, bit by bit
  // ---------------------------------------------------------------------

  /** Bit k of n. */
  function Bit(n: nat, k: nat): (b: nat)
    ensures b < 2
  {
    Pow2Positive(k);
    n / Pow2(k) % 2
  }

  lemma {:induction false} Pow2Positive(k: nat)
    ensures Pow2(k) > 0
  {
    if k > 0 { Pow2Positive(k - 1); }
  }

  lemma BitZero(n: nat)
    ensures Bit(n, 0) == n % 2
  {
  }

  lemma BitNext(n: nat, k: nat)
    requires k > 0
    ensures Bit(n, k) == Bit(n / 2, k - 1)
  {
    Pow2Positive(k - 1);
    DivideAgain(n, 2, Pow2(k - 1));
  }

  lemma {:induction false} XorBitsBit(a: nat, b: nat, bits: nat, k: nat)
    requires k < bits
    ensures Bit(XorBits(a, b, bits), k) == if Bit(a, k) == Bit(b, k) then 0 else 1
  {
    hide Bit;
    var high, low := XorBits(a / 2, b / 2, bits - 1), if a % 2 == b % 2 then 0 else 1;
    Halves(high, low);
    if k == 0 {
      BitZero(a);
      BitZero(b);
      BitZero(2 * high + low);
    } else {
      BitNext(a, k);
      BitNext(b, k);
      BitNext(2 * high + low, k);
      XorBitsBit(a / 2, b / 2, bits - 1, k - 1);
    }
  }

  lemma {:induction false} SameBits(a: nat, b: nat, bits: nat)
    requires a < Pow2(bits) && b < Pow2(bits) && forall k :: 0 <= k < bits ==> Bit(a, k) == Bit(b, k)
    ensures a == b
  {
    if bits > 0 {
      BitZero(a);
      BitZero(b);
      forall k | 0 <= k < bits - 1 ensures Bit(a / 2, k) == Bit(b / 2, k) {
        BitNext(a, k + 1);
        BitNext(b, k + 1);
        assert Bit(a, k + 1) == Bit(b, k + 1);
      }
      SameBits(a / 2, b / 2, bits - 1);
    }
  }

  /** x has a bit set exactly where a and b differ in it. */
  predicate DiffersIn(x: Byte, a: Byte, b: Byte) {
    forall k :: 0 <= k < 8 ==> (Bit(x, k) == 1 <==> Bit(a, k) != Bit(b, k))
  }

  /** XorByte is the exclusive or of its arguments and nothing else is. */
  lemma XorByteExactly(a: Byte, b: Byte, x: Byte)
    ensures x == XorByte(a, b) <==> DiffersIn(x, a, b)
  {
    hide Bit, XorBits;
    ByteBits();
    forall k | 0 <= k < 8 ensures Bit(XorByte(a, b), k) == if Bit(a, k) == Bit(b, k) then 0 else 1 {
      XorBitsBit(a, b, 8, k);
    }
    if DiffersIn(x, a, b) {
      forall k | 0 <= k < 8 ensures Bit(x, k) == Bit(XorByte(a, b), k) { BitRange(x, k); }
      SameBits(x, XorByte(a, b), 8);
    }
  }

  lemma BitRange(n: nat, k: nat)
    ensures Bit(n, k) < 2
  {
  }
}
