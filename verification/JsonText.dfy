// JSON string literals and numbers (modules/utils/src/json.c): escaping,
// decoding, and the loops that do it. A char is a byte.
module JsonText {
  import opened Text

  // ---------------------------------------------------------------------
  // Escaping
  // ---------------------------------------------------------------------

  const BACKSPACE: char := 8 as char
  const FORM_FEED: char := 12 as char

  /** The letter of a two-character escape, or NUL when c has none. */
  function ShortEscape(c: char): char {
    if c == '\\' then '\\'
    else if c == '"' then '"'
    else if c == '\n' then 'n'
    else if c == '\t' then 't'
    else if c == '\r' then 'r'
    else if c == BACKSPACE then 'b'
    else if c == FORM_FEED then 'f'
    else '\0'
  }

  function EscapeChar(c: char): (e: string)
    ensures 1 <= |e| <= 6
  {
    if ShortEscape(c) != '\0' then ['\\', ShortEscape(c)]
    else if c < 0x20 as char then ['\\', 'u', '0', '0', HexDigit(c as int / 16), HexDigit(c as int % 16)]
    else [c]
  }

  function Escape(s: string): string {
    if s == "" then "" else EscapeChar(s[0]) + Escape(s[1..])
  }

  // ---------------------------------------------------------------------
  // Decoding
  // ---------------------------------------------------------------------

  function Hex4(s: string): Option<nat> {
    if |s| < 4 || HexValue(s[0]) < 0 || HexValue(s[1]) < 0 || HexValue(s[2]) < 0 || HexValue(s[3]) < 0 then None
    else Some(((HexValue(s[0]) * 16 + HexValue(s[1])) * 16 + HexValue(s[2])) * 16 + HexValue(s[3]))
  }

  function Utf8(cp: nat): (bytes: string)
    requires cp < 0x11_0000
    ensures |bytes| == if cp < 0x80 then 1 else if cp < 0x800 then 2 else if cp < 0x1_0000 then 3 else 4
  {
    if cp < 0x80 then [cp as char]
    else if cp < 0x800 then [(0xC0 + cp / 64) as char, (0x80 + cp % 64) as char]
    else if cp < 0x1_0000 then
      [(0xE0 + cp / 4096) as char, (0x80 + cp / 64 % 64) as char, (0x80 + cp % 64) as char]
    else
      [(0xF0 + cp / 262144) as char, (0x80 + cp / 4096 % 64) as char, (0x80 + cp / 64 % 64) as char,
       (0x80 + cp % 64) as char]
  }

  /** The character after a backslash that stands for a single byte, or NUL. */
  function ShortMeaning(c: char): char {
    match c
    case '"' => '"'
    case '\\' => '\\'
    case '/' => '/'
    case 'b' => BACKSPACE
    case 'f' => FORM_FEED
    case 'n' => '\n'
    case 'r' => '\r'
    case 't' => '\t'
    case _ => '\0'
  }

  predicate HighSurrogate(cp: nat) { 0xD800 <= cp <= 0xDBFF }
  predicate LowSurrogate(cp: nat) { 0xDC00 <= cp <= 0xDFFF }

  /** A \u escape at the start of s, maybe a surrogate pair: its code point and length. */
  function UnicodeEscape(s: string): (r: Option<(nat, nat)>)
    ensures r.Some? ==> 0 < r.value.0 < 0x11_0000 && 6 <= r.value.1 <= |s|
    ensures r.Some? ==> r.value.1 == if r.value.0 < 0x1_0000 then 6 else 12
  {
    if |s| < 6 || Hex4(s[2..]).None? then None
    else
      var cp := Hex4(s[2..]).value;
      if HighSurrogate(cp) then
        if |s| < 12 || s[6] != '\\' || s[7] != 'u' || Hex4(s[8..]).None? || !LowSurrogate(Hex4(s[8..]).value) then None
        else Some((0x1_0000 + (cp - 0xD800) * 1024 + (Hex4(s[8..]).value - 0xDC00), 12))
      else if LowSurrogate(cp) || cp == 0 then None
      else Some((cp, 6))
  }

  /** One character or escape: the bytes it stands for and how much text it takes. */
  function DecodeStep(s: string): (r: Option<(string, nat)>)
    requires s != ""
    ensures r.Some? ==> 1 <= r.value.1 <= |s| && |r.value.0| <= r.value.1
  {
    if s[0] < 0x20 as char then None
    else if s[0] != '\\' then Some(([s[0]], 1))
    else if |s| < 2 then None
    else if s[1] == 'u' then
      match UnicodeEscape(s)
      case None => None
      case Some((cp, n)) => Some((Utf8(cp), n))
    else if ShortMeaning(s[1]) == '\0' then None
    else Some(([ShortMeaning(s[1])], 2))
  }

  function Join(head: string, tail: Option<string>): Option<string> {
    if tail.None? then None else Some(head + tail.value)
  }

  /** The text between the quotes, decoded. */
  function DecodeBody(s: string): Option<string> {
    if s == "" then Some("")
    else if DecodeStep(s).None? then None
    else Join(DecodeStep(s).value.0, DecodeBody(s[DecodeStep(s).value.1..]))
  }

  /** Position of the closing quote; an escaped character never closes. */
  function CloseAt(s: string): (r: Option<nat>)
    ensures r.Some? ==> r.value < |s| && s[r.value] == '"'
  {
    if s == "" then None
    else if s[0] == '"' then Some(0)
    else if s[0] == '\\' then
      if |s| < 2 then None else Later(CloseAt(s[2..]), 2)
    else Later(CloseAt(s[1..]), 1)
  }

  function Later(r: Option<nat>, n: nat): Option<nat> {
    if r.None? then None else Some(r.value + n)
  }

  /** A string literal at the start of s: its text and what follows. */
  function ParseString(s: string): (r: Option<(string, string)>)
    requires s != "" && s[0] == '"'
    ensures r.Some? ==> |r.value.1| < |s|
  {
    match CloseAt(s[1..])
    case None => None
    case Some(k) =>
      match DecodeBody(s[1..][..k])
      case None => None
      case Some(text) => Some((text, s[1..][k + 1..]))
  }

  // ---------------------------------------------------------------------
  // The laws of strings
  // ---------------------------------------------------------------------

  /** Decoding never outgrows the raw text, so the buffer of its length suffices. */
  lemma {:induction false} DecodedFits(s: string)
    requires DecodeBody(s).Some?
    ensures |DecodeBody(s).value| <= |s|
  {
    hide DecodeStep;
    if s != "" { DecodedFits(s[DecodeStep(s).value.1..]); }
  }

  lemma ControlEscape(c: char, rest: string)
    requires '\0' < c < 0x20 as char && ShortEscape(c) == '\0'
    ensures DecodeStep(EscapeChar(c) + rest) == Some(([c], 6))
  {
    var e := EscapeChar(c);
    var s := e + rest;
    assert s[2..][0] == '0' && s[2..][1] == '0';
    assert s[2..][2] == HexDigit(c as int / 16) && s[2..][3] == HexDigit(c as int % 16);
    assert Hex4(s[2..]) == Some(c as int);
    assert UnicodeEscape(s) == Some((c as int, 6));
  }

  lemma EscapeCharDecodes(c: char, rest: string)
    requires c != '\0'
    ensures DecodeStep(EscapeChar(c) + rest) == Some(([c], |EscapeChar(c)|))
  {
    if ShortEscape(c) == '\0' && c < 0x20 as char {
      ControlEscape(c, rest);
    }
  }

  /** Escaping is undone by decoding. */
  lemma {:induction false} EscapeDecodes(s: string)
    requires NulFree(s)
    ensures DecodeBody(Escape(s)) == Some(s)
  {
    hide DecodeStep, EscapeChar;
    if s != "" {
      EscapeCharDecodes(s[0], Escape(s[1..]));
      EscapeDecodes(s[1..]);
      var e := EscapeChar(s[0]);
      assert (e + Escape(s[1..]))[|e|..] == Escape(s[1..]);
      assert [s[0]] + s[1..] == s;
    }
  }

  lemma ClosePlain(c: char, rest: string)
    requires c != '"' && c != '\\'
    ensures CloseAt([c] + rest) == Later(CloseAt(rest), 1)
  {
    assert ([c] + rest)[1..] == rest;
  }

  lemma CloseEscaped(c: char, rest: string)
    ensures CloseAt(['\\', c] + rest) == Later(CloseAt(rest), 2)
  {
    assert (['\\', c] + rest)[2..] == rest;
  }

  lemma EscapeCharOpen(c: char, rest: string)
    ensures CloseAt(EscapeChar(c) + rest) == Later(CloseAt(rest), |EscapeChar(c)|)
  {
    hide CloseAt;
    var e := EscapeChar(c);
    if ShortEscape(c) != '\0' {
      CloseEscaped(ShortEscape(c), rest);
    } else if c < 0x20 as char {
      assert HexDigit(c as int / 16) != '"' && HexDigit(c as int % 16) != '"';
      assert HexDigit(c as int / 16) != '\\' && HexDigit(c as int % 16) != '\\';
      hide EscapeChar, ShortEscape, HexDigit;
      CloseControl(e[4], e[5], rest);
      assert e + rest == ['\\', 'u'] + (['0'] + (['0'] + ([e[4]] + ([e[5]] + rest))));
    } else {
      ClosePlain(c, rest);
    }
  }

  lemma CloseControl(x: char, y: char, rest: string)
    requires x != '"' && x != '\\' && y != '"' && y != '\\'
    ensures CloseAt(['\\', 'u'] + (['0'] + (['0'] + ([x] + ([y] + rest))))) == Later(CloseAt(rest), 6)
  {
    hide CloseAt;
    ClosePlain(y, rest);
    ClosePlain(x, [y] + rest);
    ClosePlain('0', [x] + ([y] + rest));
    ClosePlain('0', ['0'] + ([x] + ([y] + rest)));
    CloseEscaped('u', ['0'] + (['0'] + ([x] + ([y] + rest))));
  }

  /** Nothing inside escaped text looks like the closing quote. */
  lemma {:induction false} EscapeCloses(s: string, rest: string)
    ensures CloseAt(Escape(s) + ("\"" + rest)) == Some(|Escape(s)|)
  {
    hide EscapeChar;
    var q := "\"" + rest;
    if s == "" {
      assert Escape(s) + q == q;
    } else {
      EscapeCloses(s[1..], rest);
      EscapeCharOpen(s[0], Escape(s[1..]) + q);
      assert Escape(s) + q == EscapeChar(s[0]) + (Escape(s[1..]) + q);
    }
  }

  function Quoted(s: string): string { "\"" + Escape(s) + "\"" }

  /** A printed string literal parses back to its text, whatever follows. */
  lemma QuotedParses(s: string, rest: string)
    requires NulFree(s)
    ensures (Quoted(s) + rest)[0] == '"' && ParseString(Quoted(s) + rest) == Some((s, rest))
  {
    hide Escape, DecodeBody, CloseAt;
    var all := Quoted(s) + rest;
    assert all[1..] == Escape(s) + ("\"" + rest);
    EscapeCloses(s, rest);
    EscapeDecodes(s);
    assert all[1..][..|Escape(s)|] == Escape(s);
    assert all[1..][|Escape(s)| + 1..] == rest;
  }

  lemma SixBitDigits(cp: nat)
    requires cp < 0x11_0000
    ensures cp == (cp / 64) * 64 + cp % 64
    ensures cp / 64 == (cp / 4096) * 64 + cp / 64 % 64
    ensures cp / 4096 == (cp / 262144) * 64 + cp / 4096 % 64
    ensures cp / 262144 < 5
  {
    assert cp / 64 / 64 == cp / 4096;
    assert cp / 4096 / 64 == cp / 262144;
  }

  /** The code point of a UTF-8 sequence, read from the bits its bytes carry. */
  function CodePoint(b: string): int
    requires 1 <= |b| <= 4
  {
    if |b| == 1 then b[0] as int
    else if |b| == 2 then (b[0] as int - 0xC0) * 64 + (b[1] as int - 0x80)
    else if |b| == 3 then ((b[0] as int - 0xE0) * 64 + (b[1] as int - 0x80)) * 64 + (b[2] as int - 0x80)
    else (((b[0] as int - 0xF0) * 64 + (b[1] as int - 0x80)) * 64 + (b[2] as int - 0x80)) * 64 + (b[3] as int - 0x80)
  }

  predicate Continuation(c: char) { 0x80 <= c as int < 0xC0 }

  /** Utf8 is the encoding of section 3 of RFC 3629: the code point can be read back from well-formed bytes. */
  lemma Utf8RoundTrip(cp: nat)
    requires cp < 0x11_0000
    ensures CodePoint(Utf8(cp)) == cp
    ensures forall i :: 1 <= i < |Utf8(cp)| ==> Continuation(Utf8(cp)[i])
    ensures |Utf8(cp)| == 1 ==> Utf8(cp)[0] as int < 0x80
    ensures |Utf8(cp)| == 2 ==> 0xC2 <= Utf8(cp)[0] as int < 0xE0
    ensures |Utf8(cp)| == 3 ==> 0xE0 <= Utf8(cp)[0] as int < 0xF0
    ensures |Utf8(cp)| == 4 ==> 0xF0 <= Utf8(cp)[0] as int < 0xF5
  {
    SixBitDigits(cp);
    var high, mid, low := cp / 4096, cp / 64, cp % 64;
    if cp >= 0x80 {
      assert Utf8(cp)[|Utf8(cp)| - 1] as int == 0x80 + low;
    }
  }
}
