// Which real numbers the JSON parser accepts (modules/utils/src/json.c).
module JsonNumbers {
  import opened Text
  import opened JsonText
  import opened JsonReal
  import opened Json
  import opened JsonRoundTrip

  /** A real: it has a fraction or an exponent, and no leading zero. */
  predicate ValidReal(n: Number) {
    ValidNumber(n) && (n.point || n.mark != "") && (n.whole[0] == '0' ==> |n.whole| == 1)
  }

  predicate InFloatRange(v: real) { -FLOAT_END < v < FLOAT_END }

  // ---------------------------------------------------------------------
  // Every spelled real is scanned to its end
  // ---------------------------------------------------------------------

  /** t stands in s at position i. */
  predicate Stands(s: string, i: nat, t: string) { i + |t| <= |s| && s[i..i + |t|] == t }

  function FractionText(n: Number): string { (if n.point then "." else "") + n.fraction }

  function ExponentText(n: Number): string { n.mark + n.exponent }

  lemma DigitsStand(s: string, i: nat, digits: string)
    requires Stands(s, i, digits) && AllDigits(digits) && !IsDigit(At(s, i + |digits|))
    ensures DigitsEnd(s, i) == i + |digits|
    ensures digits != "" ==> At(s, i) == digits[0] && IsDigit(At(s, i))
  {
    var e := i + |digits|;
    assert forall k :: i <= k < e ==> s[k] == s[i..e][k - i];
    DigitsEndAt(s, i, e);
  }

  lemma WholeScanned(s: string, i: nat, n: Number)
    requires ValidReal(n) && Stands(s, i, n.whole) && !IsDigit(At(s, i + |n.whole|))
    ensures IntegerEnd(s, i) == Some(i + |n.whole|)
  {
    DigitsStand(s, i, n.whole);
  }

  lemma FractionScanned(s: string, e: nat, n: Number)
    requires ValidReal(n) && Stands(s, e, FractionText(n))
    requires var f := e + |FractionText(n)|; !IsDigit(At(s, f)) && At(s, f) != '.'
    ensures FractionEnd(s, e) == Some(e + |FractionText(n)|)
  {
    var part := FractionText(n);
    if n.point {
      assert s[e] == s[e..e + |part|][0];
      assert s[e + 1..e + |part|] == s[e..e + |part|][1..];
      DigitsStand(s, e + 1, n.fraction);
    }
  }

  lemma ExponentScanned(s: string, f: nat, n: Number)
    requires ValidReal(n) && Stands(s, f, ExponentText(n))
    requires var x := f + |ExponentText(n)|; !IsDigit(At(s, x)) && At(s, x) != 'e' && At(s, x) != 'E'
    ensures ExponentEnd(s, f) == Some(f + |ExponentText(n)|)
  {
    var part := ExponentText(n);
    if n.mark != "" {
      var d := f + |n.mark|;
      assert forall k :: f <= k < f + |part| ==> s[k] == s[f..f + |part|][k - f];
      assert s[d..f + |part|] == n.exponent;
      DigitsStand(s, d, n.exponent);
      assert s[f] == n.mark[0];
      assert |n.mark| == 2 ==> s[f + 1] == n.mark[1];
    }
  }

  /** Where the parts of a number stand when it starts s. */
  lemma PartsStand(n: Number, rest: string)
    requires ValidReal(n)
    ensures var s := NumberText(n) + rest;
      var i := if n.negative then 1 else 0;
      var e := i + |n.whole|;
      var f := e + |FractionText(n)|;
      && Stands(s, i, n.whole) && Stands(s, e, FractionText(n)) && Stands(s, f, ExponentText(n))
      && |NumberText(n)| == f + |ExponentText(n)| && s[|NumberText(n)|..] == rest && (s[0] == '-' <==> n.negative)
  {
    var sign := if n.negative then "-" else "";
    assert NumberText(n) + rest == sign + n.whole + FractionText(n) + ExponentText(n) + rest;
  }

  lemma FirstAt(s: string, i: nat, t: string)
    requires Stands(s, i, t) && t != ""
    ensures At(s, i) == t[0]
  {
    assert s[i] == s[i..i + |t|][0];
  }

  lemma RealScanned(n: Number, rest: string)
    requires ValidReal(n) && Stops(rest)
    ensures ScanNumber(NumberText(n) + rest) == Some((|NumberText(n)|, true))
  {
    hide IntegerEnd, FractionEnd, ExponentEnd, NumberText, Stands;
    PartsStand(n, rest);
    var s := NumberText(n) + rest;
    var i := if n.negative then 1 else 0;
    var e := i + |n.whole|;
    var f := e + |FractionText(n)|;
    var x := f + |ExponentText(n)|;
    assert At(s, x) == if rest == "" then '\0' else rest[0] by {
      if rest != "" { assert s[x] == s[x..][0]; }
    }
    if n.mark != "" { FirstAt(s, f, ExponentText(n)); }
    if n.point { FirstAt(s, e, FractionText(n)); }
    WholeScanned(s, i, n);
    FractionScanned(s, e, n);
    ExponentScanned(s, f, n);
  }

  /** A real in any spelling is accepted exactly when the nearest float is finite. */
  lemma RealAcceptedExactly(n: Number, rest: string)
    requires ValidReal(n) && Stops(rest)
    ensures ParseNumber(NumberText(n) + rest)
      == if InFloatRange(Denotes(n)) then Good(Real(NumberText(n)), rest) else Bad
  {
    hide ScanNumber, RealOf, Denotes, NumberText, Stops;
    RealScanned(n, rest);
    RealOfNumber(n);
    var s := NumberText(n) + rest;
    assert s[..|NumberText(n)|] == NumberText(n) && s[|NumberText(n)|..] == rest;
  }

  // ---------------------------------------------------------------------
  // And nothing else is
  // ---------------------------------------------------------------------

  /** Whatever real is accepted is the text of such a number, within range. */
  lemma AcceptedRealSound(s: string)
    requires ParseNumber(s).Good? && ParseNumber(s).value.Real?
    ensures exists n :: (ValidReal(n) && InFloatRange(Denotes(n))
      && ParseNumber(s).value == Real(NumberText(n)) && s == NumberText(n) + ParseNumber(s).rest)
  {
    hide RealOf, Denotes, NumberText;
    var n := ScannedNumber(s);
    RealOfNumber(n);
  }

  lemma WholeShape(s: string, i: nat, e: nat)
    requires i == (if At(s, 0) == '-' then 1 else 0) && IntegerEnd(s, i) == Some(e)
    ensures i < e <= |s| && AllDigits(s[i..e]) && (s[i] == '0' ==> e == i + 1)
  {
    DigitsEndDigits(s, i);
  }

  lemma FractionShape(s: string, e: nat, f: nat)
    requires e <= |s| && FractionEnd(s, e) == Some(f)
    ensures f == e || (e + 1 < f <= |s| && s[e] == '.' && AllDigits(s[e + 1..f]))
  {
    if f != e { DigitsEndDigits(s, e + 1); }
  }

  /** The mark ends at d. */
  lemma ExponentShape(s: string, f: nat, x: nat) returns (d: nat)
    requires f <= |s| && ExponentEnd(s, f) == Some(x)
    ensures f <= d <= x <= |s| && AllDigits(s[d..x]) && (d == f <==> d == x)
    ensures s[f..d] in ["", "e", "E", "e+", "E+", "e-", "E-"]
  {
    if f == x { return f; }
    d := if At(s, f + 1) == '+' || At(s, f + 1) == '-' then f + 2 else f + 1;
    DigitsEndDigits(s, d);
    assert s[f..d] == if d == f + 1 then [s[f]] else [s[f], s[f + 1]];
  }

  lemma Pieces(s: string, i: nat, e: nat, f: nat, d: nat, x: nat)
    requires i <= e <= f <= d <= x <= |s|
    ensures s[..x] == s[..i] + (s[i..e] + s[e..f]) + (s[f..d] + s[d..x])
  {
  }

  lemma ScannedNumber(s: string) returns (n: Number)
    requires ScanNumber(s).Some? && ScanNumber(s).value.1
    ensures ValidReal(n) && NumberText(n) == s[..ScanNumber(s).value.0]
  {
    hide IntegerEnd, FractionEnd, ExponentEnd, AllDigits, IntegerToken;
    var i := if At(s, 0) == '-' then 1 else 0;
    var e := IntegerEnd(s, i).value;
    var f := FractionEnd(s, e).value;
    var x := ExponentEnd(s, f).value;
    WholeShape(s, i, e);
    FractionShape(s, e, f);
    var d := ExponentShape(s, f, x);
    n := Number(i == 1, s[i..e], f > e, if f > e then s[e + 1..f] else "", s[f..d], s[d..x]);
    assert NumberText(n) == s[..x] by {
      assert s[..i] == if i == 1 then "-" else "";
      assert s[e..f] == (if n.point then "." else "") + n.fraction;
      Pieces(s, i, e, f, d, x);
    }
    assert ValidReal(n) by {
      hide NumberText, Significand;
      NoDigits();
    }
  }

  lemma NoDigits()
    ensures AllDigits("")
  {
  }
}
