// Small functions on C strings, shared by the protocol modules. A C string or
// byte buffer is a Dafny string here: one char per byte.
module Text {

  datatype Option<+T> = None | Some(value: T)

  predicate IsDigit(c: char) { '0' <= c <= '9' }

  function DigitValue(c: char): (v: nat)
    requires IsDigit(c)
    ensures v < 10
  {
    c as int - '0' as int
  }

  predicate AllDigits(s: string) { forall i :: 0 <= i < |s| ==> IsDigit(s[i]) }

  predicate AllHex(s: string) { forall i :: 0 <= i < |s| ==> HexValue(s[i]) >= 0 }

  /** Value of a hexadecimal digit, or -1. */
  function HexValue(c: char): (v: int)
    ensures -1 <= v < 16
    ensures v >= 0 <==> '0' <= c <= '9' || 'a' <= c <= 'f' || 'A' <= c <= 'F'
  {
    if '0' <= c <= '9' then c as int - '0' as int
    else if 'a' <= c <= 'f' then 10 + (c as int - 'a' as int)
    else if 'A' <= c <= 'F' then 10 + (c as int - 'A' as int)
    else -1
  }

  predicate NulFree(s: string) { forall i :: 0 <= i < |s| ==> s[i] != '\0' }

  /** The lower-case hexadecimal digit of n. */
  function HexDigit(n: nat): (c: char)
    requires n < 16
    ensures HexValue(c) == n
  {
    if n < 10 then (n + '0' as int) as char else (n - 10 + 'a' as int) as char
  }

  function Lower(c: char): char {
    if 'A' <= c <= 'Z' then ((c as int) + 32) as char else c
  }

  /** ASCII case-insensitive equality, as strcasecmp in the C locale. */
  predicate EqualsIgnoreCase(a: string, b: string) {
    |a| == |b| && forall i :: 0 <= i < |a| ==> Lower(a[i]) == Lower(b[i])
  }

  /** First position of c in s, or |s| when c does not occur. */
  function IndexOf(s: string, c: char): (i: nat)
    ensures i <= |s|
    ensures forall k :: 0 <= k < i ==> s[k] != c
    ensures i < |s| ==> s[i] == c
  {
    if s == [] || s[0] == c then 0 else 1 + IndexOf(s[1..], c)
  }

  /** The pieces of s between occurrences of c; always at least one piece. */
  function Split(s: string, c: char): (pieces: seq<string>)
    ensures |pieces| >= 1
  {
    if s == [] then [""]
    else
      var rest := Split(s[1..], c);
      if s[0] == c then [""] + rest else [[s[0]] + rest[0]] + rest[1..]
  }

  /** Value of a string of decimal digits, most significant digit first. */
  function DecimalValue(s: string): (n: nat)
    requires AllDigits(s)
  {
    if s == [] then 0
    else 10 * DecimalValue(s[..|s| - 1]) + DigitValue(s[|s| - 1])
  }

  /** Value of a string of hexadecimal digits, most significant digit first. */
  function HexNumber(s: string): (n: nat)
    requires AllHex(s)
  {
    if s == [] then 0
    else 16 * HexNumber(s[..|s| - 1]) + HexValue(s[|s| - 1])
  }

  /** Characters other than c stay together in front of the first piece. */
  lemma {:induction false} SplitGlue(s: string, c: char, n: nat)
    requires n <= |s|
    requires forall j :: 0 <= j < n ==> s[j] != c
    ensures Split(s, c) == [s[..n] + Split(s[n..], c)[0]] + Split(s[n..], c)[1..]
  {
    if n == 0 {
      assert s[..0] + Split(s, c)[0] == Split(s, c)[0] && s[0..] == s;
    } else {
      SplitGlue(s[1..], c, n - 1);
      assert s[1..][n - 1..] == s[n..];
      var first := Split(s[n..], c)[0];
      assert [s[0]] + (s[1..][..n - 1] + first) == s[..n] + first;
    }
  }

  /** The first piece ends at the first c. */
  lemma SplitStep(s: string, c: char, k: nat)
    requires k <= |s|
    requires forall j :: 0 <= j < k ==> s[j] != c
    requires k < |s| ==> s[k] == c
    ensures k == |s| ==> Split(s, c) == [s]
    ensures k < |s| ==> Split(s, c) == [s[..k]] + Split(s[k + 1..], c)
  {
    SplitGlue(s, c, k);
    if k == |s| {
      assert s[k..] == "" && s[..k] + "" == s;
    } else {
      assert s[k..][1..] == s[k + 1..];
      assert s[..k] + "" == s[..k];
    }
  }

  lemma IndexOfUnique(s: string, c: char, i: nat)
    requires i <= |s|
    requires forall k :: 0 <= k < i ==> s[k] != c
    requires i < |s| ==> s[i] == c
    ensures IndexOf(s, c) == i
  {
  }

  function Digit(n: nat): (c: char)
    requires n < 10
    ensures IsDigit(c) && DigitValue(c) == n
  {
    ('0' as int + n) as char
  }

  lemma DecimalSnoc(pre: string, c: char)
    requires AllDigits(pre) && IsDigit(c)
    ensures AllDigits(pre + [c]) && DecimalValue(pre + [c]) == 10 * DecimalValue(pre) + DigitValue(c)
  {
    assert (pre + [c])[..|pre|] == pre;
  }

  lemma {:induction false} DecimalGrows(pre: string, s: string)
    requires AllDigits(pre) && AllDigits(s)
    ensures AllDigits(pre + s) && DecimalValue(pre) <= DecimalValue(pre + s)
    decreases |s|
  {
    if s == "" {
      assert pre + s == pre;
    } else {
      DecimalSnoc(pre, s[0]);
      DecimalGrows(pre + [s[0]], s[1..]);
      assert pre + [s[0]] + s[1..] == pre + s;
    }
  }

  /** Decimal digits of n, as printf "%zu". */
  function DecimalText(n: nat): string {
    if n < 10 then [Digit(n)] else DecimalText(n / 10) + [Digit(n % 10)]
  }

  lemma {:induction false} DecimalTextValue(n: nat)
    ensures DecimalText(n) != "" && AllDigits(DecimalText(n)) && DecimalValue(DecimalText(n)) == n
  {
    if n >= 10 {
      DecimalTextValue(n / 10);
      DecimalSnoc(DecimalText(n / 10), Digit(n % 10));
    } else {
      assert DecimalText(n)[..0] == "";
    }
  }

  /** Copies s into the buffer at p. */
  method Write(buffer: array<char>, p: nat, s: string) returns (q: nat)
    requires p + |s| <= buffer.Length
    modifies buffer
    ensures q == p + |s| && buffer[..q] == old(buffer[..p]) + s
  {
    forall i | 0 <= i < |s| { buffer[p + i] := s[i]; }
    q := p + |s|;
  }
}
