// The JSON parser as it runs (modules/utils/src/json.c): an index into a
// NUL-terminated buffer, loops over digits and blanks, recursion over values.
module JsonParser {
  import opened Text
  import opened JsonText
  import opened JsonReal
  import opened Json

  // ---------------------------------------------------------------------
  // Strings
  // ---------------------------------------------------------------------

  /** First pass: the closing quote of the literal whose opening quote is at `at`. */
  method FindClose(s: string, at: nat) returns (close: Option<nat>)
    requires at < |s|
    ensures close == Later(CloseAt(s[at + 1..]), at + 1)
  {
    hide CloseAt;
    var i := at + 1;
    while i < |s| && s[i] != '"'
      invariant at + 1 <= i <= |s|
      invariant Later(CloseAt(s[at + 1..]), at + 1) == Later(CloseAt(s[i..]), i)
    {
      CloseNext(s, i);
      if s[i] == '\\' {
        if i + 1 == |s| { return None; }
        i := i + 2;
      } else {
        i := i + 1;
      }
    }
    CloseHere(s, i);
    return if i < |s| then Some(i) else None;
  }

  lemma CloseNext(s: string, i: nat)
    requires i < |s| && s[i] != '"'
    ensures Later(CloseAt(s[i..]), i) ==
      if s[i] != '\\' then Later(CloseAt(s[i + 1..]), i + 1)
      else if i + 1 == |s| then None
      else Later(CloseAt(s[i + 2..]), i + 2)
  {
    var t := s[i..];
    assert t[1..] == s[i + 1..];
    if i + 1 < |s| { assert t[2..] == s[i + 2..]; }
  }

  lemma CloseHere(s: string, i: nat)
    requires i <= |s| && (i < |s| ==> s[i] == '"')
    ensures CloseAt(s[i..]) == if i < |s| then Some(0) else None
  {
  }

  /** What is decoded so far followed by the rest decoded is the whole decoded. */
  ghost predicate DecodedSoFar(body: string, k: nat, done: string)
    requires k <= |body|
  {
    DecodeBody(body) == Join(done, DecodeBody(body[k..]))
  }

  lemma DecodedStart(body: string)
    ensures DecodedSoFar(body, 0, "")
  {
    assert body[0..] == body;
    if DecodeBody(body).Some? { assert "" + DecodeBody(body).value == DecodeBody(body).value; }
  }

  lemma DecodedNext(body: string, k: nat, done: string)
    requires k < |body| && DecodedSoFar(body, k, done)
    ensures var step := DecodeStep(body[k..]);
      if step.None? then DecodeBody(body).None?
      else DecodedSoFar(body, k + step.value.1, done + step.value.0)
  {
    hide DecodeStep;
    var step := DecodeStep(body[k..]);
    if step.Some? {
      var next := k + step.value.1;
      assert body[k..][step.value.1..] == body[next..];
      if DecodeBody(body[next..]).Some? {
        var rest := DecodeBody(body[next..]).value;
        assert done + (step.value.0 + rest) == done + step.value.0 + rest;
      }
    }
  }

  lemma DecodedEnd(body: string, done: string)
    requires DecodedSoFar(body, |body|, done)
    ensures DecodeBody(body) == Some(done)
  {
    assert body[|body|..] == "" && done + "" == done;
  }

  /** Second pass: decodes into a buffer as long as the raw text, which is never outgrown. */
  method DecodeInto(body: string) returns (text: Option<string>)
    ensures text == DecodeBody(body)
  {
    hide DecodeStep, DecodeBody;
    var dst := new char[|body| + 1];
    var j, k := 0, 0;
    DecodedStart(body);
    assert dst[..j] == "";
    while k < |body|
      invariant 0 <= j <= k <= |body| && dst.Length == |body| + 1
      invariant DecodedSoFar(body, k, dst[..j])
    {
      DecodedNext(body, k, dst[..j]);
      var step := DecodeStep(body[k..]);
      if step.None? { return None; }
      j := Write(dst, j, step.value.0);
      k := k + step.value.1;
    }
    DecodedEnd(body, dst[..j]);
    dst[j] := '\0';
    text := Some(dst[..j]);
  }

  /** The result of parsing at an index, as the functions of Json state it. */
  function AsParsed(s: string, r: Option<Json>, next: nat): Parsed
    requires next <= |s|
  {
    if r.None? then Bad else Good(r.value, s[next..])
  }

  method ParseStringAt(s: string, at: nat) returns (text: Option<string>, next: nat)
    requires at < |s| && s[at] == '"'
    ensures next <= |s| && text.None? == ParseString(s[at..]).None?
    ensures text.Some? ==> at < next && ParseString(s[at..]) == Some((text.value, s[next..]))
  {
    hide DecodeBody;
    next := 0;
    var t := s[at..];
    assert t[1..] == s[at + 1..];
    var close := FindClose(s, at);
    if close.None? { return None, 0; }
    var i := close.value;
    assert s[at + 1..i] == t[1..][..i - at - 1] && s[i + 1..] == t[1..][i - at - 1 + 1..];
    text := DecodeInto(s[at + 1..i]);
    next := i + 1;
  }

  // ---------------------------------------------------------------------
  // Blanks and numbers
  // ---------------------------------------------------------------------

  method SkipAt(s: string, at: nat) returns (next: nat)
    requires at <= |s|
    ensures at <= next <= |s| && s[next..] == SkipBlanks(s[at..])
  {
    next := at;
    while next < |s| && IsBlank(s[next])
      invariant at <= next <= |s| && SkipBlanks(s[at..]) == SkipBlanks(s[next..])
    {
      assert s[next..][1..] == s[next + 1..];
      next := next + 1;
    }
  }

  method ScanDigitsAt(t: string, from: nat) returns (i: nat)
    requires from <= |t|
    ensures i == DigitsEnd(t, from) && from <= i <= |t|
  {
    i := from;
    while i < |t| && IsDigit(t[i])
      invariant from <= i <= |t| && DigitsEnd(t, i) == DigitsEnd(t, from)
    {
      i := i + 1;
    }
  }

  /** number = [ "-" ] int [ frac ] [ exp ] at the start of t. */
  method ScanNumberToken(t: string) returns (r: Option<(nat, bool)>)
    ensures r == ScanNumber(t)
  {
    hide DigitsEnd, IntegerToken;
    var index := 0;
    if At(t, index) == '-' { index := index + 1; }
    ghost var i := index;
    if At(t, index) == '0' {
      index := index + 1;
      if IsDigit(At(t, index)) { return None; }
    } else if '1' <= At(t, index) <= '9' {
      index := ScanDigitsAt(t, index);
    } else {
      return None;
    }
    ghost var e := index;
    assert IntegerEnd(t, i) == Some(e);
    var isReal := false;
    if At(t, index) == '.' {
      isReal := true;
      index := index + 1;
      if !IsDigit(At(t, index)) { return None; }
      index := ScanDigitsAt(t, index);
      DigitsAdvance(t, e + 1);
    }
    ghost var f := index;
    assert FractionEnd(t, e) == Some(f) && isReal == (f > e);
    if At(t, index) == 'e' || At(t, index) == 'E' {
      isReal := true;
      index := index + 1;
      if At(t, index) == '+' || At(t, index) == '-' { index := index + 1; }
      if !IsDigit(At(t, index)) { return None; }
      ghost var d := index;
      index := ScanDigitsAt(t, index);
      DigitsAdvance(t, d);
    }
    assert ExponentEnd(t, f) == Some(index);
    r := Some((index, isReal));
  }

  lemma DigitsAdvance(t: string, i: nat)
    ensures DigitsEnd(t, i) >= i
  {
  }

  /** Decimal accumulation, as strtol does it. */
  method ReadInteger(token: string) returns (value: int)
    requires IntegerToken(token)
    ensures value == IntegerOf(token)
  {
    var negative := At(token, 0) == '-';
    var digits := if negative then token[1..] else token;
    value := 0;
    var i := 0;
    while i < |digits|
      invariant i <= |digits| && AllDigits(digits[..i]) && value == DecimalValue(digits[..i])
    {
      assert digits[..i + 1] == digits[..i] + [digits[i]];
      DecimalSnoc(digits[..i], digits[i]);
      value := 10 * value + DigitValue(digits[i]);
      i := i + 1;
    }
    assert digits[..i] == digits;
    if negative { value := -value; }
  }

  method ParseNumberAt(s: string, at: nat) returns (r: Option<Json>, next: nat)
    requires at <= |s|
    ensures next <= |s| && AsParsed(s, r, next) == ParseNumber(s[at..])
  {
    hide ScanNumber, FitsFloat;
    next := at;
    var t := s[at..];
    var token := ScanNumberToken(t);
    if token.None? { return None, at; }
    var n, isReal := token.value.0, token.value.1;
    next := at + n;
    assert t[n..] == s[next..];
    if isReal { return if FitsFloat(t[..n]) then Some(Real(t[..n])) else None, next; }
    var value := ReadInteger(t[..n]);
    r := if INT_MIN <= value <= INT_MAX then Some(Int(value)) else None;
  }

  method LiteralAt(s: string, at: nat, word: string, value: Json) returns (r: Option<Json>, next: nat)
    requires at <= |s| && word != ""
    ensures next <= |s| && AsParsed(s, r, next) == Literal(s[at..], word, value)
  {
    if at + |word| <= |s| && s[at..at + |word|] == word {
      assert s[at..][..|word|] == word && s[at..][|word|..] == s[at + |word|..];
      return Some(value), at + |word|;
    }
    assert |s[at..]| >= |word| ==> s[at..][..|word|] == s[at..at + |word|];
    return None, at;
  }

  // ---------------------------------------------------------------------
  // Values
  // ---------------------------------------------------------------------

  method ParseValueAt(s: string, at: nat, depth: nat) returns (r: Option<Json>, next: nat)
    requires at <= |s|
    ensures next <= |s| && AsParsed(s, r, next) == ParseValue(s[at..], depth)
    ensures r.Some? ==> next > at
    decreases |s| - at, 1
  {
    hide ParseString, ParseNumber, Literal, ParseArray, ParseObject;
    var i := SkipAt(s, at);
    next := i;
    ghost var t := s[i..];
    if i == |s| { return None, i; }
    assert t[0] == s[i] && At(t, 1) == At(s, i + 1);
    if s[i] == '{' {
      r, next := ParseObjectAt(s, i, depth);
    } else if s[i] == '[' {
      r, next := ParseArrayAt(s, i, depth);
    } else if s[i] == 'n' {
      r, next := LiteralAt(s, i, "null", Null);
    } else if s[i] == 't' {
      r, next := LiteralAt(s, i, "true", Bool(true));
    } else if s[i] == 'f' {
      r, next := LiteralAt(s, i, "false", Bool(false));
    } else if s[i] == '"' {
      var text;
      text, next := ParseStringAt(s, i);
      r := if text.None? then None else Some(Str(text.value));
    } else if IsDigit(s[i]) || (s[i] == '-' && IsDigit(At(s, i + 1))) {
      r, next := ParseNumberAt(s, i);
    } else {
      r := None;
    }
  }

  method ParseArrayAt(s: string, at: nat, depth: nat) returns (r: Option<Json>, next: nat)
    requires at < |s| && s[at] == '['
    ensures next <= |s| && AsParsed(s, r, next) == ParseArray(s[at..], depth)
    decreases |s| - at, 0
  {
    hide ParseItems, ParseValue, SkipBlanks;
    if depth >= MAX_DEPTH { return None, at; }
    assert s[at..][1..] == s[at + 1..];
    var index := SkipAt(s, at + 1);
    if index < |s| && s[index] == ']' {
      assert s[index..][1..] == s[index + 1..];
      return Some(Array([])), index + 1;
    }
    ghost var begin := index;
    var items: seq<Json> := [];
    while index < |s|
      invariant begin <= index <= |s|
      invariant ParseItems(s[begin..], depth, []) == ParseItems(s[index..], depth, items)
      decreases |s| - index
    {
      var child, after := ParseValueAt(s, index, depth + 1);
      ItemsStep(s, index, depth, items, child, after);
      if child.None? { return None, at; }
      after := SkipAt(s, after);
      if after == |s| { return None, at; }
      if s[after] == ']' { return Some(Array(items + [child.value])), after + 1; }
      if s[after] != ',' { return None, at; }
      items := items + [child.value];
      index := SkipAt(s, after + 1);
    }
    ItemsEnd(depth, items);
    return None, at;
  }

  lemma ItemsEnd(depth: nat, items: seq<Json>)
    ensures ParseItems("", depth, items) == Bad
  {
  }

  /** One turn of the array loop, in terms of indices. */
  lemma ItemsStep(s: string, index: nat, depth: nat, items: seq<Json>, child: Option<Json>, next: nat)
    requires index < |s| && next <= |s| && AsParsed(s, child, next) == ParseValue(s[index..], depth + 1)
    ensures var whole := ParseItems(s[index..], depth, items);
      if child.None? then whole == Bad
      else
        var w := SkipBlanks(s[next..]);
        if w == "" then whole == Bad
        else if w[0] == ']' then whole == Good(Array(items + [child.value]), w[1..])
        else if w[0] != ',' then whole == Bad
        else whole == ParseItems(SkipBlanks(w[1..]), depth, items + [child.value])
  {
    hide ParseValue;
  }

  method ParsePairAt(s: string, at: nat, depth: nat) returns (r: Option<Json>, next: nat)
    requires at <= |s|
    ensures next <= |s| && AsParsed(s, r, next) == ParsePair(s[at..], depth)
    ensures r.Some? ==> next > at && r.value.Object? && |r.value.pairs| == 1
    decreases |s| - at, 0
  {
    hide ParseString, ParseValue;
    next := at;
    if at == |s| || s[at] != '"' { return None, at; }
    var key, i := ParseStringAt(s, at);
    if key.None? { return None, at; }
    i := SkipAt(s, i);
    if i == |s| || s[i] != ':' { return None, at; }
    assert s[i..][1..] == s[i + 1..];
    i := SkipAt(s, i + 1);
    var value;
    value, next := ParseValueAt(s, i, depth + 1);
    r := if value.None? then None else Some(Object([Pair(key.value, value.value)]));
  }

  method ParseObjectAt(s: string, at: nat, depth: nat) returns (r: Option<Json>, next: nat)
    requires at < |s| && s[at] == '{'
    ensures next <= |s| && AsParsed(s, r, next) == ParseObject(s[at..], depth)
    decreases |s| - at, 0
  {
    hide ParsePairs, ParsePair, SkipBlanks, SetKey;
    if depth >= MAX_DEPTH { return None, at; }
    assert s[at..][1..] == s[at + 1..];
    var index := SkipAt(s, at + 1);
    if index < |s| && s[index] == '}' {
      assert s[index..][1..] == s[index + 1..];
      return Some(Object([])), index + 1;
    }
    ghost var begin := index;
    var pairs: seq<Pair> := [];
    while index < |s|
      invariant begin <= index <= |s|
      invariant ParsePairs(s[begin..], depth, []) == ParsePairs(s[index..], depth, pairs)
      decreases |s| - index
    {
      var pair, after := ParsePairAt(s, index, depth);
      PairsStep(s, index, depth, pairs, pair, after);
      if pair.None? { return None, at; }
      pairs := SetKey(pairs, pair.value.pairs[0].key, pair.value.pairs[0].value);
      after := SkipAt(s, after);
      if after == |s| { return None, at; }
      if s[after] == '}' { return Some(Object(pairs)), after + 1; }
      if s[after] != ',' { return None, at; }
      index := SkipAt(s, after + 1);
    }
    PairsEnd(depth, pairs);
    return None, at;
  }

  lemma PairsEnd(depth: nat, pairs: seq<Pair>)
    ensures ParsePairs("", depth, pairs) == Bad
  {
  }

  lemma PairsStep(s: string, index: nat, depth: nat, pairs: seq<Pair>, pair: Option<Json>, next: nat)
    requires index < |s| && next <= |s| && AsParsed(s, pair, next) == ParsePair(s[index..], depth)
    ensures var whole := ParsePairs(s[index..], depth, pairs);
      if pair.None? then whole == Bad
      else
        pair.value.Object? && |pair.value.pairs| == 1 &&
        var all := SetKey(pairs, pair.value.pairs[0].key, pair.value.pairs[0].value);
        var w := SkipBlanks(s[next..]);
        if w == "" then whole == Bad
        else if w[0] == '}' then whole == Good(Object(all), w[1..])
        else if w[0] != ',' then whole == Bad
        else whole == ParsePairs(SkipBlanks(w[1..]), depth, all)
  {
    hide ParsePair;
  }

  method ParseText(s: string) returns (v: Option<Json>)
    ensures v == Parse(s)
  {
    hide ParseValue;
    var next;
    assert s[0..] == s;
    v, next := ParseValueAt(s, 0, 0);
    if v.None? { return; }
    next := SkipAt(s, next);
    if next < |s| { v := None; }
  }
}
