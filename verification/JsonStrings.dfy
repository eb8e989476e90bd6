// String literals as section 7 of RFC 8259 describes them, against what the
// parser makes of them (modules/utils/src/json.c).
module JsonStrings {
  import opened Text
  import opened JsonText

  // ---------------------------------------------------------------------
  // The grammar
  // ---------------------------------------------------------------------

  /** One character of a literal: as itself, after a backslash, or by its UTF-16 code units in hexadecimal. */
  datatype Piece = Plain(c: char) | Short(letter: char) | Code(cp: nat, units: seq<string>)

  /** What the letter after a backslash stands for, None when it may not stand there. */
  function LetterMeans(letter: char): Option<char> {
    if letter == '"' || letter == '\\' || letter == '/' then Some(letter)
    else if letter == 'b' then Some(8 as char)
    else if letter == 'f' then Some(12 as char)
    else if letter == 'n' then Some(10 as char)
    else if letter == 'r' then Some(13 as char)
    else if letter == 't' then Some(9 as char)
    else None
  }

  predicate IsSurrogate(n: nat) { 0xD800 <= n < 0xE000 }

  /** The UTF-16 code units of a code point (section 2.1 of RFC 2781). */
  function Utf16(cp: nat): seq<nat> {
    if cp < 0x1_0000 then [cp] else [0xD800 + (cp - 0x1_0000) / 0x400, 0xDC00 + (cp - 0x1_0000) % 0x400]
  }

  /** Four hexadecimal digits, of either case, for n. */
  predicate SpellsUnit(h: string, n: nat) { |h| == 4 && AllHex(h) && HexNumber(h) == n }

  predicate SpellsUnits(hs: seq<string>, ns: seq<nat>) {
    |hs| == |ns| && forall i :: 0 <= i < |hs| ==> SpellsUnit(hs[i], ns[i])
  }

  predicate ValidPiece(p: Piece) {
    match p
    case Plain(c) => c as int >= 0x20 && c != '"' && c != '\\'
    case Short(letter) => LetterMeans(letter).Some?
    case Code(cp, units) => 0 < cp < 0x11_0000 && !IsSurrogate(cp) && SpellsUnits(units, Utf16(cp))
  }

  function UnitsText(units: seq<string>): string {
    if units == [] then "" else "\\u" + units[0] + UnitsText(units[1..])
  }

  function PieceText(p: Piece): string {
    match p
    case Plain(c) => [c]
    case Short(letter) => ['\\', letter]
    case Code(_, units) => UnitsText(units)
  }

  /** b is the text of a piece; a code point is in UTF-8. */
  predicate PieceMeans(p: Piece, b: string) {
    match p
    case Plain(c) => b == [c]
    case Short(letter) => LetterMeans(letter).Some? && b == [LetterMeans(letter).value]
    case Code(cp, _) => Utf8For(cp, b)
  }

  /** The shortest UTF-8 form: section 3 of RFC 3629. */
  predicate Utf8For(cp: nat, b: string) {
    && |b| == (if cp < 0x80 then 1 else if cp < 0x800 then 2 else if cp < 0x1_0000 then 3 else 4)
    && CodePoint(b) == cp && forall i :: 1 <= i < |b| ==> Continuation(b[i])
  }

  predicate ValidPieces(ps: seq<Piece>) { forall i :: 0 <= i < |ps| ==> ValidPiece(ps[i]) }

  function PiecesText(ps: seq<Piece>): string {
    if ps == [] then "" else PieceText(ps[0]) + PiecesText(ps[1..])
  }

  /** text is what the pieces stand for, one after the other. */
  predicate PiecesMean(ps: seq<Piece>, text: string)
    decreases ps
  {
    if ps == [] then text == ""
    else exists n :: 0 <= n <= |text| && PieceMeans(ps[0], text[..n]) && PiecesMean(ps[1..], text[n..])
  }

  // ---------------------------------------------------------------------
  // UTF-8
  // ---------------------------------------------------------------------

  lemma Utf8Only(cp: nat, b: string)
    requires cp < 0x11_0000
    ensures Utf8For(cp, b) <==> b == Utf8(cp)
  {
    Utf8RoundTrip(cp);
    if Utf8For(cp, b) { SameCodePoint(b, Utf8(cp)); }
  }

  lemma SameCodePoint(a: string, b: string)
    requires 1 <= |a| == |b| <= 4 && CodePoint(a) == CodePoint(b)
    requires forall i :: 1 <= i < |a| ==> Continuation(a[i]) && Continuation(b[i])
    ensures a == b
  {
  }

  // ---------------------------------------------------------------------
  // One piece
  // ---------------------------------------------------------------------

  lemma HexDigits(h: string)
    requires |h| == 4 && AllHex(h)
    ensures HexNumber(h) == ((HexValue(h[0]) * 16 + HexValue(h[1])) * 16 + HexValue(h[2])) * 16 + HexValue(h[3])
  {
    assert h[..3][..2] == h[..2] && h[..2][..1] == h[..1] && h[..1][..0] == "";
    assert h[..3][2] == h[2] && h[..2][1] == h[1] && h[..1][0] == h[0];
    assert HexNumber(h[..1]) == HexValue(h[0]);
    assert HexNumber(h[..2]) == HexValue(h[0]) * 16 + HexValue(h[1]);
  }

  lemma Hex4Reads(h: string, rest: string, n: nat)
    requires SpellsUnit(h, n)
    ensures Hex4(h + rest) == Some(n)
  {
    HexDigits(h);
    assert forall i :: 0 <= i < 4 ==> (h + rest)[i] == h[i];
  }

  lemma Hex4Sound(s: string)
    requires Hex4(s).Some?
    ensures SpellsUnit(s[..4], Hex4(s).value)
  {
    HexDigits(s[..4]);
  }

  /** A code point below 2^16 takes one escape, any other a pair. */
  lemma CodeReads(cp: nat, units: seq<string>, rest: string)
    requires 0 < cp < 0x11_0000 && !IsSurrogate(cp) && SpellsUnits(units, Utf16(cp))
    ensures UnicodeEscape(UnitsText(units) + rest) == Some((cp, |UnitsText(units)|))
  {
    hide Hex4, HexNumber, AllHex;
    var s := UnitsText(units) + rest;
    assert SpellsUnit(units[0], Utf16(cp)[0]);
    if cp < 0x1_0000 {
      assert units == [units[0]] && UnitsText(units) == "\\u" + units[0];
      assert s[2..] == units[0] + rest;
      Hex4Reads(units[0], rest, cp);
    } else {
      assert SpellsUnit(units[1], Utf16(cp)[1]);
      assert units[1..] == [units[1]] && UnitsText(units[1..]) == "\\u" + units[1];
      assert UnitsText(units) == "\\u" + units[0] + ("\\u" + units[1]);
      assert s[2..] == units[0] + ("\\u" + units[1] + rest) && s[8..] == units[1] + rest;
      Hex4Reads(units[0], "\\u" + units[1] + rest, Utf16(cp)[0]);
      Hex4Reads(units[1], rest, Utf16(cp)[1]);
    }
  }

  /** One valid piece is decoded to its meaning, whatever follows. */
  lemma PieceDecodes(p: Piece, b: string, rest: string)
    requires ValidPiece(p) && PieceMeans(p, b)
    ensures PieceText(p) != "" && DecodeStep(PieceText(p) + rest) == Some((b, |PieceText(p)|))
  {
    hide Hex4, Utf8, UnicodeEscape;
    match p {
      case Plain(c) =>
      case Short(letter) =>
        var s := PieceText(p) + rest;
        assert s[0] == '\\' && s[1] == letter;
      case Code(cp, units) =>
        CodeReads(cp, units, rest);
        Utf8Only(cp, b);
        assert PieceText(p)[0] == '\\' && PieceText(p)[1] == 'u';
    }
  }

  /** What is decoded at the front of a text is a valid piece. */
  lemma StepIsPiece(s: string) returns (p: Piece)
    requires s != "" && s[0] != '"' && DecodeStep(s).Some?
    ensures var (b, n) := DecodeStep(s).value;
      ValidPiece(p) && PieceText(p) == s[..n] && PieceMeans(p, b)
  {
    hide Hex4, Utf8, UnicodeEscape;
    if s[0] != '\\' {
      p := Plain(s[0]);
    } else if s[1] != 'u' {
      p := Short(s[1]);
      assert s[..2] == [s[0], s[1]];
    } else {
      var (cp, n) := UnicodeEscape(s).value;
      var units := EscapeUnits(s);
      p := Code(cp, units);
      Utf8Only(cp, Utf8(cp));
    }
  }

  lemma EscapeUnits(s: string) returns (units: seq<string>)
    requires |s| >= 2 && s[0] == '\\' && s[1] == 'u' && UnicodeEscape(s).Some?
    ensures var (cp, n) := UnicodeEscape(s).value;
      !IsSurrogate(cp) && SpellsUnits(units, Utf16(cp)) && UnitsText(units) == s[..n]
  {
    hide Hex4, HexNumber, AllHex;
    var (cp, n) := UnicodeEscape(s).value;
    Hex4Sound(s[2..]);
    var first := s[2..][..4];
    if n == 6 {
      units := [first];
      assert UnitsText(units) == "\\u" + first + UnitsText([]);
      assert s[..6] == "\\u" + first;
    } else {
      Hex4Sound(s[8..]);
      var second := s[8..][..4];
      units := [first, second];
      assert UnitsText(units[1..]) == "\\u" + second + UnitsText([]);
      assert s[..12] == "\\u" + first + ("\\u" + second);
    }
  }

  // ---------------------------------------------------------------------
  // Where a literal ends
  // ---------------------------------------------------------------------

  lemma HexIsPlain(h: string)
    requires AllHex(h)
    ensures forall i :: 0 <= i < |h| ==> h[i] != '"' && h[i] != '\\'
  {
  }

  lemma {:induction false} ClosePlains(h: string, rest: string)
    requires forall i :: 0 <= i < |h| ==> h[i] != '"' && h[i] != '\\'
    ensures CloseAt(h + rest) == Later(CloseAt(rest), |h|)
  {
    hide CloseAt;
    if h == "" {
      assert h + rest == rest;
    } else {
      ClosePlains(h[1..], rest);
      ClosePlain(h[0], h[1..] + rest);
      assert h + rest == [h[0]] + (h[1..] + rest);
    }
  }

  lemma CloseUnit(h: string, rest: string)
    requires |h| == 4 && AllHex(h)
    ensures CloseAt("\\u" + h + rest) == Later(CloseAt(rest), 6)
  {
    hide CloseAt;
    HexIsPlain(h);
    ClosePlains(h, rest);
    CloseEscaped('u', h + rest);
    assert "\\u" + h + rest == ['\\', 'u'] + (h + rest);
  }

  lemma {:induction false} CloseUnits(units: seq<string>, ns: seq<nat>, rest: string)
    requires SpellsUnits(units, ns)
    ensures CloseAt(UnitsText(units) + rest) == Later(CloseAt(rest), |UnitsText(units)|)
  {
    hide CloseAt, HexNumber;
    if units == [] {
      assert UnitsText(units) + rest == rest;
    } else {
      assert SpellsUnit(units[0], ns[0]);
      CloseUnits(units[1..], ns[1..], rest);
      CloseUnit(units[0], UnitsText(units[1..]) + rest);
      assert UnitsText(units) + rest == "\\u" + units[0] + (UnitsText(units[1..]) + rest);
    }
  }

  lemma ClosePiece(p: Piece, rest: string)
    requires ValidPiece(p)
    ensures CloseAt(PieceText(p) + rest) == Later(CloseAt(rest), |PieceText(p)|)
  {
    hide CloseAt, SpellsUnits;
    match p {
      case Plain(c) => ClosePlain(c, rest);
      case Short(letter) => CloseEscaped(letter, rest);
      case Code(cp, units) => CloseUnits(units, Utf16(cp), rest);
    }
  }

  lemma {:induction false} ClosePieces(ps: seq<Piece>, rest: string)
    requires ValidPieces(ps)
    ensures CloseAt(PiecesText(ps) + rest) == Later(CloseAt(rest), |PiecesText(ps)|)
  {
    hide CloseAt, ValidPiece, PieceText;
    if ps == [] {
      assert PiecesText(ps) + rest == rest;
    } else {
      ClosePieces(ps[1..], rest);
      ClosePiece(ps[0], PiecesText(ps[1..]) + rest);
      assert PiecesText(ps) + rest == PieceText(ps[0]) + (PiecesText(ps[1..]) + rest);
    }
  }

  // ---------------------------------------------------------------------
  // Whole literals
  // ---------------------------------------------------------------------

  lemma {:induction false} PiecesDecode(ps: seq<Piece>, text: string, rest: string)
    requires ValidPieces(ps) && PiecesMean(ps, text)
    ensures DecodeBody(PiecesText(ps) + rest) == Join(text, DecodeBody(rest))
    decreases ps
  {
    hide ValidPiece, PieceText, PieceMeans, DecodeStep, DecodeBody, Join;
    if ps == [] {
      assert PiecesText(ps) + rest == rest;
      JoinNothing(DecodeBody(rest));
    } else {
      var n :| 0 <= n <= |text| && PieceMeans(ps[0], text[..n]) && PiecesMean(ps[1..], text[n..]);
      var more := PiecesText(ps[1..]) + rest;
      PieceDecodes(ps[0], text[..n], more);
      PiecesDecode(ps[1..], text[n..], rest);
      DecodeNext(PieceText(ps[0]), text[..n], more);
      JoinTwice(text[..n], text[n..], DecodeBody(rest));
      assert PiecesText(ps) + rest == PieceText(ps[0]) + more && text[..n] + text[n..] == text;
    }
  }

  lemma DecodeNext(piece: string, b: string, more: string)
    requires piece != "" && DecodeStep(piece + more) == Some((b, |piece|))
    ensures DecodeBody(piece + more) == Join(b, DecodeBody(more))
  {
    hide DecodeStep;
    assert (piece + more)[|piece|..] == more;
  }

  lemma JoinNothing(r: Option<string>)
    ensures Join("", r) == r
  {
    if r.Some? { assert "" + r.value == r.value; }
  }

  lemma JoinTwice(a: string, b: string, r: Option<string>)
    ensures Join(a, Join(b, r)) == Join(a + b, r)
  {
    if r.Some? { assert a + (b + r.value) == a + b + r.value; }
  }

  /** A literal of the grammar, in any spelling, is read as the text its pieces stand for, whatever follows. */
  lemma LiteralParses(ps: seq<Piece>, text: string, rest: string)
    requires ValidPieces(ps) && PiecesMean(ps, text)
    ensures ParseString("\"" + PiecesText(ps) + "\"" + rest) == Some((text, rest))
  {
    hide CloseAt, DecodeBody, ValidPieces, PiecesText, PiecesMean;
    var body := PiecesText(ps);
    var s := "\"" + body + "\"" + rest;
    assert s[1..] == body + ("\"" + rest);
    ClosePieces(ps, "\"" + rest);
    CloseNow(rest);
    PiecesDecode(ps, text, "");
    assert body + "" == body && text + "" == text && s[1..][..|body|] == body && s[1..][|body| + 1..] == rest;
  }

  lemma CloseNow(rest: string)
    ensures CloseAt("\"" + rest) == Some(0) && DecodeBody("") == Some("")
  {
  }

  /** The text up to the closing quote, decoded, was pieces. */
  lemma {:induction false} BodyIsPieces(s: string, k: nat, text: string) returns (ps: seq<Piece>)
    requires CloseAt(s) == Some(k) && DecodeBody(s[..k]) == Some(text)
    ensures ValidPieces(ps) && s[..k] == PiecesText(ps) && PiecesMean(ps, text)
    decreases |s|
  {
    hide ValidPiece, PieceText, PieceMeans, DecodeStep;
    var body := s[..k];
    if k == 0 { return []; }
    Unquoted(s);
    var (b, n) := DecodeStep(body).value;
    var p := StepIsPiece(body);
    var rest := s[n..];
    assert s == PieceText(p) + rest by { assert body[..n] == s[..n]; }
    ClosePiece(p, rest);
    assert rest[..k - n] == body[n..];
    var more := BodyIsPieces(rest, k - n, DecodeBody(body[n..]).value);
    ps := [p] + more;
    assert ps[1..] == more && s[..k] == s[..n] + rest[..k - n];
    assert text[..|b|] == b && text[|b|..] == DecodeBody(body[n..]).value;
  }

  lemma Unquoted(s: string)
    requires CloseAt(s).Some? && CloseAt(s).value > 0
    ensures s[0] != '"'
  {
  }

  /** And nothing else is read as a literal. */
  lemma LiteralSound(s: string) returns (ps: seq<Piece>)
    requires s != "" && s[0] == '"' && ParseString(s).Some?
    ensures var (text, rest) := ParseString(s).value;
      ValidPieces(ps) && PiecesMean(ps, text) && s == "\"" + PiecesText(ps) + "\"" + rest
  {
    hide CloseAt, DecodeBody, ValidPieces, PiecesText, PiecesMean;
    var k := CloseAt(s[1..]).value;
    ps := BodyIsPieces(s[1..], k, ParseString(s).value.0);
    assert s == "\"" + s[1..][..k] + "\"" + s[1..][k + 1..];
  }

  /** An escape of a NUL, of a low surrogate, or of a high one without a low one after it. */
  predicate BadUnit(n: nat, tail: string) {
    n == 0 || 0xDC00 <= n < 0xE000
    || (0xD800 <= n < 0xDC00 && !exists m :: 0xDC00 <= m < 0xE000 && |tail| >= 6 && tail[..2] == "\\u" && SpellsUnit(tail[2..6], m))
  }

  /** Such an escape is refused wherever it stands. */
  lemma BadUnitRefused(ps: seq<Piece>, text: string, h: string, n: nat, tail: string)
    requires ValidPieces(ps) && PiecesMean(ps, text) && SpellsUnit(h, n) && BadUnit(n, tail)
    ensures ParseString("\"" + (PiecesText(ps) + ("\\u" + h + tail))).None?
  {
    hide CloseAt, DecodeBody, ValidPieces, PiecesText, PiecesMean, BadUnit, SpellsUnit;
    var front, unit := PiecesText(ps), "\\u" + h;
    var s := "\"" + (front + (unit + tail));
    assert s[1..] == front + (unit + tail);
    ClosePieces(ps, unit + tail);
    assert |h| == 4 && AllHex(h) by { assert SpellsUnit(h, n); UnitShape(h, n); }
    CloseUnit(h, tail);
    if CloseAt(tail).Some? {
      var j := CloseAt(tail).value;
      assert s[1..][..|front| + 6 + j] == front + (unit + tail[..j]);
      PiecesDecode(ps, text, unit + tail[..j]);
      BadUnitStops(h, n, tail, j);
    }
  }

  lemma UnitShape(h: string, n: nat)
    requires SpellsUnit(h, n)
    ensures |h| == 4 && AllHex(h)
  {
  }

  lemma PairNeeded(h: string, n: nat, t: string) returns (m: nat)
    requires SpellsUnit(h, n) && 0xD800 <= n < 0xDC00 && UnicodeEscape("\\u" + h + t).Some?
    ensures 0xDC00 <= m < 0xE000 && |t| >= 6 && t[..2] == "\\u" && SpellsUnit(t[2..6], m)
  {
    hide Hex4, SpellsUnit;
    UnitShape(h, n);
    var s := "\\u" + h + t;
    assert s[2..] == h + t && s[0] == '\\' && s[1] == 'u';
    Hex4Reads(h, t, n);
    assert s[8..] == t[2..] && t[..2] == [s[6], s[7]];
    Hex4Sound(t[2..]);
    m := Hex4(t[2..]).value;
    assert t[2..][..4] == t[2..6];
  }

  lemma BadUnitStops(h: string, n: nat, tail: string, j: nat)
    requires SpellsUnit(h, n) && BadUnit(n, tail) && j <= |tail|
    ensures DecodeBody("\\u" + h + tail[..j]).None?
  {
    hide Hex4, SpellsUnit;
    var s := "\\u" + h + tail[..j];
    UnitShape(h, n);
    assert s[2..] == h + tail[..j] && s[0] == '\\' && s[1] == 'u';
    Hex4Reads(h, tail[..j], n);
    if j >= 6 { assert tail[..j][2..6] == tail[2..6] && tail[..j][..2] == tail[..2]; }
    if 0xD800 <= n < 0xDC00 && UnicodeEscape(s).Some? { var m := PairNeeded(h, n, tail[..j]); }
  }
}
