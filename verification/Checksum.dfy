// The checksum of a migration file (tools/migrate/src/migration.c): SHA-256 of
// the text with every CRLF counted as LF, fed to the hash piece by piece.
module Checksum {
  import opened Text
  import opened Octets
  import opened Sha256

  const CR: Byte := 13
  const LF: Byte := 10

  /** Each CR directly before an LF is dropped. */
  function Normalized(s: Bytes): (r: Bytes)
    ensures |r| <= |s|
  {
    if s == [] then []
    else if |s| > 1 && s[0] == CR && s[1] == LF then Normalized(s[1..])
    else [s[0]] + Normalized(s[1..])
  }

  /** Text saved with CRLF line ends. */
  function WithCrlf(s: Bytes): Bytes {
    if s == [] then [] else (if s[0] == LF then [CR, LF] else [s[0]]) + WithCrlf(s[1..])
  }

  function HexText(d: Bytes): string {
    if d == [] then ""
    else
      var n := |d| - 1;
      HexText(d[..n]) + [HexDigit(d[n] / 16), HexDigit(d[n] % 16)]
  }

  function ChecksumOf(c: Compress, data: Bytes): string { HexText(Hash(c, Normalized(data))) }

  /** The added CRs are the ones that go away, and no other. */
  lemma {:induction false} CrlfNormalizes(s: Bytes)
    ensures Normalized(WithCrlf(s)) == s
  {
    if s != [] {
      CrlfNormalizes(s[1..]);
      var rest := WithCrlf(s[1..]);
      assert s == [s[0]] + s[1..];
      if s[0] == LF {
        assert ([CR, LF] + rest)[1..] == [LF] + rest;
        assert ([LF] + rest)[1..] == rest;
      } else {
        assert ([s[0]] + rest)[1..] == rest;
      }
    }
  }

  /** No CR stands directly before an LF. */
  predicate NoCrlf(s: Bytes) { forall i :: 0 <= i < |s| - 1 ==> !(s[i] == CR && s[i + 1] == LF) }

  lemma {:induction false} DroppedExactly(s: Bytes)
    ensures Normalized(s) == s <==> NoCrlf(s)
    ensures !NoCrlf(s) ==> |Normalized(s)| < |s|
  {
    if s != [] {
      DroppedExactly(s[1..]);
      assert s == [s[0]] + s[1..];
      assert forall i :: 0 <= i < |s| - 1 ==> s[1..][i] == s[i + 1];
    }
  }

  /** A checkout that turns LF into CRLF leaves what is hashed as it was exactly when no LF had a CR before it. */
  lemma LineEndsExactly(s: Bytes)
    ensures Normalized(WithCrlf(s)) == Normalized(s) <==> NoCrlf(s)
  {
    CrlfNormalizes(s);
    DroppedExactly(s);
  }

  /** Then it does not change the checksum. */
  lemma LineEndsDoNotMatter(c: Compress, s: Bytes)
    requires NoCrlf(s)
    ensures ChecksumOf(c, WithCrlf(s)) == ChecksumOf(c, s)
  {
    LineEndsExactly(s);
  }

  lemma HexDigitInjective(m: nat, n: nat)
    requires m < 16 && n < 16 && HexDigit(m) == HexDigit(n)
    ensures m == n
  {
  }

  /** Two checksums agree only when the digests do. */
  lemma {:induction false} HexInjective(a: Bytes, b: Bytes)
    requires |a| == |b| && HexText(a) == HexText(b)
    ensures a == b
  {
    if a != [] {
      hide HexDigit;
      var n := |a| - 1;
      var p, q := HexText(a[..n]), HexText(b[..n]);
      HexLength(a[..n]);
      HexLength(b[..n]);
      assert HexText(a)[2 * n] == HexDigit(a[n] / 16) && HexText(a)[2 * n + 1] == HexDigit(a[n] % 16);
      assert HexText(b)[2 * n] == HexDigit(b[n] / 16) && HexText(b)[2 * n + 1] == HexDigit(b[n] % 16);
      HexDigitInjective(a[n] / 16, b[n] / 16);
      HexDigitInjective(a[n] % 16, b[n] % 16);
      assert HexText(a)[..2 * n] == p && HexText(b)[..2 * n] == q;
      HexInjective(a[..n], b[..n]);
      assert a == a[..n] + [a[n]] && b == b[..n] + [b[n]];
    }
  }

  lemma {:induction false} HexLength(d: Bytes)
    ensures |HexText(d)| == 2 * |d|
  {
    if d != [] { HexLength(d[..|d| - 1]); }
  }

  /** Where the text splits at a CR that goes away, the rest is normalized on its own. */
  lemma {:induction false} NormalizedSplit(s: Bytes, from: nat, i: nat)
    requires from <= i < |s| - 1 && s[i] == CR && s[i + 1] == LF
    requires forall k :: from <= k < i ==> !(s[k] == CR && s[k + 1] == LF)
    ensures Normalized(s[from..]) == s[from..i] + Normalized(s[i + 1..])
    decreases i - from
  {
    assert s[from..][1..] == s[from + 1..];
    if from < i {
      NormalizedSplit(s, from + 1, i);
      assert s[from..i] == [s[from]] + s[from + 1..i];
    }
  }

  lemma {:induction false} NormalizedTail(s: Bytes, from: nat)
    requires from <= |s| && forall k :: from <= k < |s| - 1 ==> !(s[k] == CR && s[k + 1] == LF)
    ensures Normalized(s[from..]) == s[from..]
    decreases |s| - from
  {
    if from < |s| {
      assert s[from..][1..] == s[from + 1..];
      NormalizedTail(s, from + 1);
      assert s[from..] == [s[from]] + s[from + 1..];
    }
  }

  /** Feeds everything but the CR of each CRLF. */
  method MigrateChecksum(c: Compress, data: Bytes) returns (text: string)
    ensures text == ChecksumOf(c, data)
  {
    hide Normalized, Hash, Process;
    var ctx := new Context(c);
    var start, i := 0, 0;
    assert data[0..] == data;
    while i + 1 < |data|
      invariant 0 <= start <= i && (i <= |data| - 1 || (i == 0 && data == []))
      invariant ctx.Valid() && ctx.Counted() && ctx.compress == c && fresh(ctx) && fresh(ctx.buffer)
      invariant Normalized(data) == ctx.message + Normalized(data[start..])
      invariant forall k :: start <= k < i ==> !(data[k] == CR && data[k + 1] == LF)
    {
      if data[i] == CR && data[i + 1] == LF {
        NormalizedSplit(data, start, i);
        ghost var before := ctx.message;
        if i > start { ctx.Update(data[start..i]); }
        assert ctx.message == before + data[start..i];
        assert before + (data[start..i] + Normalized(data[i + 1..])) == ctx.message + Normalized(data[i + 1..]);
        start := i + 1;
      }
      i := i + 1;
    }
    NormalizedTail(data, start);
    if |data| > start { ctx.Update(data[start..]); }
    assert ctx.message == Normalized(data);
    var digest := ctx.Final();
    text := "";
    for k := 0 to |digest|
      invariant text == HexText(digest[..k])
    {
      assert digest[..k + 1][..k] == digest[..k];
      text := text + [HexDigit(digest[k] / 16), HexDigit(digest[k] % 16)];
    }
    assert digest[..|digest|] == digest;
  }
}
