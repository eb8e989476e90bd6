// The value of a real number token and whether it fits a C float
// (modules/utils/src/json.c), for a strtof that rounds to nearest.
module JsonReal {
  import opened Text

  /** Halfway between FLT_MAX and 2^128: from here on the nearest float is infinite. */
  const FLOAT_END: real := 340282356779733661637539395458142568448.0

  function Pow10(e: int): (p: real)
    ensures p > 0.0
    decreases if e < 0 then -e else e
  {
    if e == 0 then 1.0 else if e > 0 then 10.0 * Pow10(e - 1) else Pow10(e + 1) / 10.0
  }

  function OnlyDigits(s: string): (d: string)
    ensures AllDigits(d)
  {
    if s == "" then "" else (if IsDigit(s[0]) then [s[0]] else "") + OnlyDigits(s[1..])
  }

  /** Where the exponent starts, or the end of the token. */
  function ExponentAt(t: string): (x: nat)
    ensures x <= |t|
  {
    var lower, upper := IndexOf(t, 'e'), IndexOf(t, 'E');
    if lower <= upper then lower else upper
  }

  function Signed(negative: bool, n: int): int { if negative then -n else n }

  function ExponentOf(x: string): int { Signed(|x| > 1 && x[1] == '-', DecimalValue(OnlyDigits(x))) }

  function Magnitude(t: string): real {
    var x := ExponentAt(t);
    var point := IndexOf(t[..x], '.');
    var places := if point == x then 0 else x - point - 1;
    DecimalValue(OnlyDigits(t[..x])) as real * Pow10(ExponentOf(t[x..]) - places)
  }

  /** The real number a token stands for. */
  function RealOf(t: string): real {
    if t != "" && t[0] == '-' then -Magnitude(t) else Magnitude(t)
  }

  predicate FitsFloat(t: string) { -FLOAT_END < RealOf(t) < FLOAT_END }

  // ---------------------------------------------------------------------
  // What a spelled number denotes
  // ---------------------------------------------------------------------

  /** A number of section 6 of RFC 8259; mark is "" or an "e" with its sign. */
  datatype Number = Number(negative: bool, whole: string, point: bool, fraction: string, mark: string, exponent: string)

  predicate ValidNumber(n: Number) {
    && n.whole != "" && AllDigits(n.whole) && AllDigits(n.fraction) && AllDigits(n.exponent)
    && n.mark in ["", "e", "E", "e+", "E+", "e-", "E-"]
    && (n.point <==> n.fraction != "") && (n.mark != "" <==> n.exponent != "")
  }

  function Significand(n: Number): string {
    (if n.negative then "-" else "") + (n.whole + ((if n.point then "." else "") + n.fraction))
  }

  function NumberText(n: Number): string { Significand(n) + (n.mark + n.exponent) }

  function Denotes(n: Number): real
    requires ValidNumber(n)
  {
    ConcatDigits(n.whole, n.fraction);
    var e := Signed(n.mark == "e-" || n.mark == "E-", DecimalValue(n.exponent));
    var size := DecimalValue(n.whole + n.fraction) as real * Pow10(e - |n.fraction|);
    if n.negative then -size else size
  }

  lemma ConcatDigits(a: string, b: string)
    requires AllDigits(a) && AllDigits(b)
    ensures AllDigits(a + b)
  {
  }

  lemma {:induction false} OnlyDigitsConcat(a: string, b: string)
    ensures OnlyDigits(a + b) == OnlyDigits(a) + OnlyDigits(b)
  {
    hide IsDigit, AllDigits;
    if a == "" {
      assert a + b == b;
    } else {
      OnlyDigitsConcat(a[1..], b);
      assert (a + b)[0] == a[0] && (a + b)[1..] == a[1..] + b;
      Associate(if IsDigit(a[0]) then [a[0]] else "", OnlyDigits(a[1..]), OnlyDigits(b));
    }
  }

  lemma Associate(a: string, b: string, c: string)
    ensures a + (b + c) == a + b + c
  {
  }

  lemma {:induction false} DigitsStay(s: string)
    requires AllDigits(s)
    ensures OnlyDigits(s) == s
  {
    if s != "" { DigitsStay(s[1..]); }
  }

  lemma {:induction false} SignsGo(s: string)
    requires forall i :: 0 <= i < |s| ==> !IsDigit(s[i])
    ensures OnlyDigits(s) == ""
  {
    if s != "" { SignsGo(s[1..]); }
  }

  /** Nothing that starts an exponent. */
  predicate Plain(s: string) { forall i :: 0 <= i < |s| ==> s[i] != 'e' && s[i] != 'E' }

  lemma PlainConcat(a: string, b: string)
    requires Plain(a) && Plain(b)
    ensures Plain(a + b)
  {
  }

  lemma DigitsPlain(s: string)
    requires AllDigits(s)
    ensures Plain(s) && forall i :: 0 <= i < |s| ==> s[i] != '.' && s[i] != '-'
  {
  }

  lemma SignificandPlain(n: Number)
    requires ValidNumber(n)
    ensures Plain(Significand(n))
  {
    hide Plain, AllDigits;
    var sign, point := if n.negative then "-" else "", if n.point then "." else "";
    DigitsPlain(n.whole);
    DigitsPlain(n.fraction);
    assert Plain(sign) && Plain(point) by { MarksPlain(); }
    PlainConcat(point, n.fraction);
    PlainConcat(n.whole, point + n.fraction);
    PlainConcat(sign, n.whole + (point + n.fraction));
  }

  lemma MarksPlain()
    ensures Plain("-") && Plain(".") && Plain("")
  {
  }

  /** The point stands after the sign and the integer part. */
  lemma PointAt(head: string, point: bool, fraction: string)
    requires forall i :: 0 <= i < |head| ==> head[i] != '.'
    requires !point ==> fraction == ""
    ensures IndexOf(head + ((if point then "." else "") + fraction), '.') == |head|
  {
    IndexOfUnique(head + ((if point then "." else "") + fraction), '.', |head|);
  }

  lemma SignificandShape(n: Number)
    requires ValidNumber(n)
    ensures var m := Significand(n);
      && m != "" && (m[0] == '-' <==> n.negative)
      && IndexOf(m, '.') == if n.point then |m| - |n.fraction| - 1 else |m|
  {
    hide AllDigits, IndexOf;
    var sign := if n.negative then "-" else "";
    DigitsPlain(n.whole);
    PointAt(sign + n.whole, n.point, n.fraction);
    Associate(sign, n.whole, (if n.point then "." else "") + n.fraction);
  }

  lemma NumberParts(n: Number)
    requires ValidNumber(n)
    ensures var t, m := NumberText(n), Significand(n);
      t != "" && (t[0] == '-' <==> n.negative) && ExponentAt(t) == |m| && t[..|m|] == m && t[|m|..] == n.mark + n.exponent
  {
    hide Significand, AllDigits;
    SignificandShape(n);
    SignificandPlain(n);
    var m, x := Significand(n), n.mark + n.exponent;
    assert NumberText(n)[0] == m[0];
    assert x != "" ==> x[0] == n.mark[0];
    ExponentFound(m, x);
  }

  lemma ExponentFound(m: string, x: string)
    requires Plain(m) && (x != "" ==> x[0] == 'e' || x[0] == 'E')
    ensures ExponentAt(m + x) == |m|
  {
    var t := m + x;
    if x == "" || x[0] == 'e' { IndexOfUnique(t, 'e', |m|); }
    if x == "" || x[0] == 'E' { IndexOfUnique(t, 'E', |m|); }
    assert forall i :: 0 <= i < |m| ==> t[i] == m[i];
  }

  lemma SignificandDigits(n: Number)
    requires ValidNumber(n)
    ensures OnlyDigits(Significand(n)) == n.whole + n.fraction
  {
    hide OnlyDigits;
    var sign, point := if n.negative then "-" else "", if n.point then "." else "";
    OnlyDigitsConcat(sign, n.whole + (point + n.fraction));
    OnlyDigitsConcat(n.whole, point + n.fraction);
    OnlyDigitsConcat(point, n.fraction);
    SignsGo(sign);
    SignsGo(point);
    DigitsStay(n.whole);
    DigitsStay(n.fraction);
    assert "" + (n.whole + ("" + n.fraction)) == n.whole + n.fraction;
  }

  /** The value read from a number is the one its grammar gives it. */
  lemma RealOfNumber(n: Number)
    requires ValidNumber(n)
    ensures RealOf(NumberText(n)) == Denotes(n)
  {
    hide OnlyDigits, ExponentAt, IndexOf, DecimalValue, Pow10, Significand, NumberText;
    NumberParts(n);
    SignificandShape(n);
    SignificandDigits(n);
    ExponentValue(n);
  }

  lemma ExponentValue(n: Number)
    requires ValidNumber(n)
    ensures ExponentOf(n.mark + n.exponent) == Signed(n.mark == "e-" || n.mark == "E-", DecimalValue(n.exponent))
  {
    hide DecimalValue, OnlyDigits;
    OnlyDigitsConcat(n.mark, n.exponent);
    SignsGo(n.mark);
    DigitsStay(n.exponent);
    var x := n.mark + n.exponent;
    if |n.mark| == 1 {
      assert x[1] == n.exponent[0] && IsDigit(x[1]);
    } else if |n.mark| == 2 {
      assert x[1] == n.mark[1];
    } else {
      assert x == "";
    }
    assert "" + n.exponent == n.exponent;
  }

  // ---------------------------------------------------------------------
  // The end of the floats
  // ---------------------------------------------------------------------

  lemma {:induction false} Pow10Grows(a: nat, b: nat)
    requires a <= b
    ensures Pow10(a) <= Pow10(b)
    decreases b - a
  {
    if a < b { Pow10Grows(a, b - 1); }
  }

  lemma LastPower()
    ensures Pow10(38) < FLOAT_END < Pow10(39)
  {
    assert Pow10(10) == 10000000000.0;
    assert Pow10(20) == 100000000000000000000.0;
    assert Pow10(30) == 1000000000000000000000000000000.0;
    assert Pow10(39) == 1000000000000000000000000000000000000000.0;
  }

  /** Among the powers of ten, 1e38 is the last that fits. */
  lemma PowersOfTenFit(k: nat)
    ensures FitsFloat("1e" + DecimalText(k)) <==> k <= 38
  {
    hide RealOf, Pow10, DecimalText;
    DecimalTextValue(k);
    var n := Number(false, "1", false, "", "e", DecimalText(k));
    assert NumberText(n) == "1e" + DecimalText(k);
    RealOfNumber(n);
    assert DecimalValue("1" + "") == 1;
    LastPower();
    if k <= 38 { Pow10Grows(k, 38); } else { Pow10Grows(39, k); }
  }
}
