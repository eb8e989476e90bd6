// HTTP messages and their serializer (modules/web/src/http/message.c), and the
// law that printing a message and parsing it back is the identity.
module HttpMessage {
  import opened Text
  import opened HttpSyntax
  import opened HttpLines
  import opened HttpMachine
  import opened HttpFraming

  const CONTENT_LENGTH_NAME := "Content-Length"

  // ---------------------------------------------------------------------
  // The header table
  // ---------------------------------------------------------------------

  /** Position of the header with exactly this name, or the number of headers. */
  function FindHeader(hs: seq<Header>, name: string): (k: nat)
    ensures k <= |hs|
    ensures k < |hs| ==> hs[k].name == name
    ensures forall i :: 0 <= i < k ==> hs[i].name != name
  {
    if hs == [] || hs[0].name == name then 0 else 1 + FindHeader(hs[1..], name)
  }

  function Assign(hs: seq<Header>, name: string, value: string): seq<Header> {
    var k := FindHeader(hs, name);
    if k < |hs| then hs[k := Header(name, value)] else hs + [Header(name, value)]
  }

  predicate UniqueNames(hs: seq<Header>) {
    forall i, j :: 0 <= i < j < |hs| ==> hs[i].name != hs[j].name
  }

  // ---------------------------------------------------------------------
  // The serializer
  // ---------------------------------------------------------------------

  function MessageText(startLine: string, hs: seq<Header>, body: string): string {
    startLine + CRLF + (FieldsText(hs) + (CRLF + body))
  }

  method WriteHeader(buffer: array<char>, p: nat, h: Header) returns (q: nat)
    requires p + |FieldText(h)| + 2 <= buffer.Length
    modifies buffer
    ensures q == p + |FieldText(h)| + 2 && buffer[..q] == old(buffer[..p]) + (FieldText(h) + CRLF)
  {
    q := Write(buffer, p, h.name);
    q := Write(buffer, q, ": ");
    q := Write(buffer, q, h.value);
    q := Write(buffer, q, CRLF);
  }

  method WriteHeaders(buffer: array<char>, p: nat, hs: seq<Header>) returns (q: nat)
    requires p + |FieldsText(hs)| <= buffer.Length
    modifies buffer
    ensures q == p + |FieldsText(hs)| && buffer[..q] == old(buffer[..p]) + FieldsText(hs)
  {
    hide FieldText;
    q := p;
    var i := 0;
    while i < |hs|
      invariant i <= |hs| && q == p + |FieldsText(hs[..i])| <= buffer.Length
      invariant buffer[..q] == old(buffer[..p]) + FieldsText(hs[..i])
    {
      FieldsSnoc(hs[..i], hs[i]);
      assert hs[..i + 1] == hs[..i] + [hs[i]];
      FieldsPrefix(hs, i + 1);
      q := WriteHeader(buffer, q, hs[i]);
      i := i + 1;
    }
    assert hs[..i] == hs;
  }

  class Message {
    var startLine: string
    var headers: seq<Header>
    var body: string

    constructor ()
      ensures startLine == "" && headers == [] && body == ""
    {
      startLine, headers, body := "", [], "";
    }

    method SetHeader(name: string, value: string)
      modifies this`headers
      ensures headers == Assign(old(headers), name, value)
      ensures old(UniqueNames(headers)) ==> UniqueNames(headers)
    {
      var i := 0;
      while i < |headers|
        invariant i <= |headers| && headers == old(headers)
        invariant forall k :: 0 <= k < i ==> headers[k].name != name
      {
        if headers[i].name == name {
          headers := headers[i := Header(name, value)];
          return;
        }
        i := i + 1;
      }
      headers := headers + [Header(name, value)];
    }

    /** First pass: the number of bytes the second pass will write. */
    method NeededSize() returns (needed: nat)
      ensures needed == |MessageText(startLine, headers, body)|
    {
      needed := |startLine| + 2;
      var i := 0;
      while i < |headers|
        invariant i <= |headers|
        invariant needed == |startLine| + 2 + |FieldsText(headers[..i])|
      {
        FieldsSnoc(headers[..i], headers[i]);
        assert headers[..i + 1] == headers[..i] + [headers[i]];
        needed := needed + (|headers[i].name| + |headers[i].value| + 4);
        i := i + 1;
      }
      assert headers[..i] == headers;
      needed := needed + 2 + |body|;
    }

    /** Second pass: writes the message into a buffer of the computed size. */
    method Print(needed: nat) returns (buffer: array<char>, size: nat)
      requires needed == |MessageText(startLine, headers, body)|
      ensures fresh(buffer) && size == needed && buffer.Length == size + 1 && buffer[size] == '\0'
      ensures buffer[..size] == MessageText(startLine, headers, body)
    {
      hide FieldsText;
      buffer := new char[needed + 1];
      var p := Write(buffer, 0, startLine);
      p := Write(buffer, p, CRLF);
      p := WriteHeaders(buffer, p, headers);
      p := Write(buffer, p, CRLF);
      p := Write(buffer, p, body);
      ghost var text := buffer[..p];
      assert text == MessageText(startLine, headers, body);
      size := p;
      buffer[size] := '\0';
      assert buffer[..p] == text;
    }

    /** Sets Content-Length, then prints the message into a buffer of exactly the computed size. */
    method Serialize() returns (buffer: array<char>, size: nat)
      modifies this`headers
      ensures headers == Assign(old(headers), CONTENT_LENGTH_NAME, DecimalText(|body|))
      ensures fresh(buffer) && buffer.Length == size + 1 && buffer[size] == '\0'
      ensures buffer[..size] == MessageText(startLine, headers, body)
    {
      SetHeader(CONTENT_LENGTH_NAME, DecimalText(|body|));
      var needed := NeededSize();
      buffer, size := Print(needed);
    }
  }

  lemma {:induction false} FieldsSnoc(hs: seq<Header>, h: Header)
    ensures FieldsText(hs + [h]) == FieldsText(hs) + (FieldText(h) + CRLF)
  {
    if hs == [] {
      assert FieldsText([h]) == FieldText(h) + CRLF + FieldsText([]);
    } else {
      FieldsSnoc(hs[1..], h);
      assert (hs + [h])[1..] == hs[1..] + [h];
    }
  }

  lemma {:induction false} FieldsPrefix(hs: seq<Header>, k: nat)
    requires k <= |hs|
    ensures |FieldsText(hs[..k])| <= |FieldsText(hs)|
    decreases |hs| - k
  {
    if k == |hs| {
      assert hs[..k] == hs;
    } else {
      FieldsSnoc(hs[..k], hs[k]);
      assert hs[..k + 1] == hs[..k] + [hs[k]];
      FieldsPrefix(hs, k + 1);
    }
  }

  // ---------------------------------------------------------------------
  // Print, then parse
  // ---------------------------------------------------------------------

  /** Reading header fields. */
  predicate InHeaders(s: Parse) {
    AtLineStart(s) && s.phase.Headers? && s.limit == MAX_HEADER_SIZE && WithinLimits(s)
  }

  function WithHeaders(s: Parse, hs: seq<Header>, contentLength: Option<nat>): Parse
    requires s.Live?
  {
    s.(headers := s.headers + hs, headerBytes := s.headerBytes + |FieldsText(hs)|, contentLength := contentLength)
  }

  /** Storing h turns a known content length `from` into `to` and changes nothing else. */
  ghost predicate SetsLength(h: Header, from: Option<nat>, to: Option<nat>) {
    forall t: Parse :: t.Live? && t.contentLength == from ==> ApplyFraming(t, h) == t.(contentLength := to)
  }

  /** One header line that does not fail as a framing header. */
  lemma RunHeader(responseMode: bool, s: Parse, h: Header, contentLength: Option<nat>, rest: string)
    requires InHeaders(s) && ValidHeader(h)
    requires |s.headers| < MAX_HEADER_COUNT && s.headerBytes + |FieldText(h)| + 2 <= MAX_HEADER_SIZE
    requires SetsLength(h, s.contentLength, contentLength)
    ensures var next := WithHeaders(s, [h], contentLength);
      InHeaders(next)
      && Run(responseMode, s, FieldText(h) + CRLF + rest) == Advance(Run(responseMode, next, rest), |FieldText(h)| + 2)
  {
    hide Run, FieldOf, FieldText, WithinLimits, ApplyFraming, IsFraming;
    var line := FieldText(h);
    FieldTextLine(h);
    RunLine(responseMode, s, line, rest);
    SetLineWithinLimits(s, line);
    LineWithinLimits(responseMode, s.(line := line));
    assert FieldsText([h]) == line + CRLF + FieldsText([]);
    var next := OnLine(responseMode, s.(line := line));
    assert next == WithHeaders(s, [h], contentLength);
  }

  lemma PlainKeepsLength(h: Header, length: Option<nat>)
    requires !IsFraming(h.name)
    ensures SetsLength(h, length, length)
  {
  }

  lemma {:induction false} RunHeaders(responseMode: bool, s: Parse, hs: seq<Header>, rest: string)
    requires InHeaders(s) && PlainFields(hs)
    requires |s.headers| + |hs| <= MAX_HEADER_COUNT && s.headerBytes + |FieldsText(hs)| <= MAX_HEADER_SIZE
    ensures var next := WithHeaders(s, hs, s.contentLength);
      InHeaders(next)
      && Run(responseMode, s, FieldsText(hs) + rest) == Advance(Run(responseMode, next, rest), |FieldsText(hs)|)
    decreases |hs|
  {
    hide Run, FieldText, WithinLimits, IsFraming, ApplyFraming;
    if hs == [] {
      assert s.headers + [] == s.headers && FieldsText(hs) + rest == rest;
    } else {
      var more := FieldsText(hs[1..]) + rest;
      assert FieldsText(hs) + rest == FieldText(hs[0]) + CRLF + more;
      PlainKeepsLength(hs[0], s.contentLength);
      RunHeader(responseMode, s, hs[0], s.contentLength, more);
      assert FieldsText([hs[0]]) == FieldText(hs[0]) + CRLF + FieldsText([]);
      var next := WithHeaders(s, [hs[0]], s.contentLength);
      RunHeaders(responseMode, next, hs[1..], rest);
      assert s.headers + [hs[0]] + hs[1..] == s.headers + hs;
    }
  }

  function LengthHeader(body: string): Header { Header(CONTENT_LENGTH_NAME, DecimalText(|body|)) }

  lemma DigitsAreFieldText(s: string)
    requires AllDigits(s)
    ensures Trimmed(s) && AllFieldChars(s)
  {
    assert forall i :: 0 <= i < |s| ==> IsDigit(s[i]);
  }

  lemma LengthNameIsToken()
    ensures |CONTENT_LENGTH_NAME| > 0 && AllTchar(CONTENT_LENGTH_NAME)
  {
    var s := CONTENT_LENGTH_NAME;
    assert |s| == 14;
    forall i | 0 <= i < |s| ensures IsTchar(s[i]) {
      if i < 7 { assert 'C' <= s[i] <= 'z'; } else if i == 7 { assert s[i] == '-'; } else { assert 'L' <= s[i] <= 'z'; }
    }
  }

  lemma LengthHeaderValid(body: string)
    ensures ValidHeader(LengthHeader(body))
  {
    hide DecimalText, AllTchar;
    DecimalTextValue(|body|);
    DigitsAreFieldText(DecimalText(|body|));
    LengthNameIsToken();
  }

  lemma LengthHeaderApplies(body: string)
    requires |body| <= MAX_BODY_SIZE
    ensures SetsLength(LengthHeader(body), None, Some(|body|))
  {
    hide ContentLengthOf;
    DecimalTextValue(|body|);
    ContentLengthExact(DecimalText(|body|), |body|);
  }

  lemma {:induction false} FieldsConcat(a: seq<Header>, b: seq<Header>)
    ensures FieldsText(a + b) == FieldsText(a) + FieldsText(b)
  {
    hide FieldText;
    if a == [] {
      assert a + b == b;
    } else {
      FieldsConcat(a[1..], b);
      assert (a + b)[1..] == a[1..] + b;
    }
  }

  lemma FieldsOne(h: Header)
    ensures FieldsText([h]) == FieldText(h) + CRLF
  {
    hide FieldText;
    assert FieldsText([h]) == FieldText(h) + CRLF + FieldsText([]);
  }

  /** The Content-Length header and the plain headers after it. */
  lemma RunFromLength(responseMode: bool, s: Parse, body: string, after: seq<Header>, rest: string)
    requires InHeaders(s) && s.contentLength.None? && |body| <= MAX_BODY_SIZE && PlainFields(after)
    requires |s.headers| + 1 + |after| <= MAX_HEADER_COUNT
    requires s.headerBytes + |FieldsText([LengthHeader(body)])| + |FieldsText(after)| <= MAX_HEADER_SIZE
    ensures var h := LengthHeader(body);
      var next := WithHeaders(WithHeaders(s, [h], Some(|body|)), after, Some(|body|));
      InHeaders(next)
      && Run(responseMode, s, FieldsText([h]) + (FieldsText(after) + rest))
         == Advance(Run(responseMode, next, rest), |FieldsText([h])| + |FieldsText(after)|)
  {
    hide Run, FieldText, FieldsText, WithinLimits, IsFraming, ApplyFraming, LengthHeader, PlainFields;
    var h := LengthHeader(body);
    FieldsOne(h);
    LengthHeaderApplies(body);
    LengthHeaderValid(body);
    RunHeader(responseMode, s, h, Some(|body|), FieldsText(after) + rest);
    RunHeaders(responseMode, WithHeaders(s, [h], Some(|body|)), after, rest);
  }

  /** The header section of a printed message: plain headers around the Content-Length. */
  lemma RunHeaderSection(responseMode: bool, s: Parse, before: seq<Header>, body: string, after: seq<Header>, rest: string)
    requires InHeaders(s) && s.contentLength.None? && s.headers == [] && s.headerBytes == 0
    requires |body| <= MAX_BODY_SIZE && PlainFields(before) && PlainFields(after)
    requires var all := before + [LengthHeader(body)] + after;
      |all| <= MAX_HEADER_COUNT && |FieldsText(all)| <= MAX_HEADER_SIZE
    ensures var all := before + [LengthHeader(body)] + after;
      var next := WithHeaders(s, all, Some(|body|));
      InHeaders(next)
      && Run(responseMode, s, FieldsText(all) + rest) == Advance(Run(responseMode, next, rest), |FieldsText(all)|)
  {
    hide Run, FieldsText, WithinLimits, LengthHeader, PlainFields;
    var h := LengthHeader(body);
    var all := before + [h] + after;
    FieldsConcat(before + [h], after);
    FieldsConcat(before, [h]);
    var tail := FieldsText([h]) + (FieldsText(after) + rest);
    assert FieldsText(all) + rest == FieldsText(before) + tail;
    RunHeaders(responseMode, s, before, tail);
    var s1 := WithHeaders(s, before, None);
    RunFromLength(responseMode, s1, body, after, rest);
    assert s.headers + before + [h] + after == s.headers + all;
  }

  /** The headers of a message that may be printed: valid, one of each name, no other framing header. */
  predicate Printable(hs: seq<Header>) {
    UniqueNames(hs) &&
    forall i :: 0 <= i < |hs| ==>
      hs[i].name == CONTENT_LENGTH_NAME || (ValidHeader(hs[i]) && !IsFraming(hs[i].name))
  }

  /** Setting Content-Length leaves plain headers on both sides of it. */
  lemma AssignLength(hs: seq<Header>, body: string) returns (before: seq<Header>, after: seq<Header>)
    requires Printable(hs)
    ensures Assign(hs, CONTENT_LENGTH_NAME, DecimalText(|body|)) == before + [LengthHeader(body)] + after
    ensures PlainFields(before) && PlainFields(after)
  {
    hide IsFraming, ValidHeader, DecimalText;
    var k := FindHeader(hs, CONTENT_LENGTH_NAME);
    before := hs[..k];
    after := if k < |hs| then hs[k + 1..] else [];
  }

  /** The state after the start line. */
  function Started(start: StartLine): Parse {
    Live(Headers, "", false, MAX_HEADER_SIZE, Some(start), [], [], None, false, 0, 0, "", 0)
  }

  lemma StartNoBreaks(start: StartLine)
    requires ValidStart(start)
    ensures NoBreaks(StartText(start))
  {
    var version := VersionText(start.major, start.minor);
    assert NoBreaks(version);
    match start
    case Request(target, httpMethod, _, _) =>
      TextNoBreaks(target);
      TextNoBreaks(httpMethod);
      hide VersionText, NoBreaks, ValidStart;
      SpaceJoined(target, version);
      SpaceJoined(httpMethod, target + " " + version);
      assert StartText(start) == httpMethod + " " + (target + " " + version);
    case Status(code, reason, _, _) =>
      TextNoBreaks(reason);
      var digits := [Digit(code / 100), Digit(code / 10 % 10), Digit(code % 10)];
      assert NoBreaks(digits);
      hide VersionText, NoBreaks, ValidStart, Digit;
      SpaceJoined(version, digits);
      SpaceJoined(version + " " + digits, reason);
      assert StartText(start) == version + " " + digits + " " + reason;
  }

  lemma SpaceJoined(a: string, b: string)
    requires NoBreaks(a) && NoBreaks(b)
    ensures NoBreaks(a + " " + b)
  {
  }

  /** Where the parser stands once the start line of a printed message has been read. */
  lemma RunStart(responseMode: bool, start: StartLine, rest: string)
    requires ValidStart(start) && responseMode == start.Status?
    requires |StartText(start)| <= MAX_REQUEST_LINE
    ensures var next := Started(start);
      InHeaders(next)
      && Run(responseMode, Initial(), StartText(start) + CRLF + rest)
         == Advance(Run(responseMode, next, rest), |StartText(start)| + 2)
  {
    hide Run, StatusLineOf, RequestLineOf, ValidStart;
    StartNoBreaks(start);
    if start.Request? { RequestLineComplete(start); } else { StatusLineComplete(start); }
    RunLine(responseMode, Initial(), StartText(start), rest);
  }

  lemma RunBody(responseMode: bool, s: Parse, body: string)
    requires InHeaders(s) && s.body == "" && s.contentLength == Some(|body|) && !s.chunked
    requires responseMode && s.start.Some? && s.start.value.Status? ==> !Bodiless(s.start.value.code)
    ensures Run(responseMode, s, CRLF + body)
         == (s.(phase := Complete, body := body), |body| + 2)
  {
    RunCrlf(responseMode, s, body);
    var next := OnLine(responseMode, s);
    if body == "" {
      TerminalAbsorbs(responseMode, next, body);
    } else {
      RunFixed(responseMode, next, body);
      assert next.body + body == body;
    }
  }

  /**
   * Printing a message and feeding the bytes to the parser completes, consumes
   * every byte, and gives back the start line, the headers in order and the body.
   */
  lemma PrintParseRoundTrip(start: StartLine, hs: seq<Header>, body: string)
    requires ValidStart(start) && |StartText(start)| <= MAX_REQUEST_LINE
    requires start.Status? ==> !Bodiless(start.code)
    requires Printable(hs) && |body| <= MAX_BODY_SIZE
    requires var all := Assign(hs, CONTENT_LENGTH_NAME, DecimalText(|body|));
      |all| <= MAX_HEADER_COUNT && |FieldsText(all)| <= MAX_HEADER_SIZE
    ensures var all := Assign(hs, CONTENT_LENGTH_NAME, DecimalText(|body|));
      var text := MessageText(StartText(start), all, body);
      var (s, taken) := Run(start.Status?, Initial(), text);
      s.Live? && s.phase.Complete? && taken == |text|
      && s.start == Some(start) && s.headers == all && s.trailers == [] && s.body == body
  {
    hide Run, WithinLimits, DecimalText, StartText, ValidStart, Printable, Assign, PlainFields;
    var mode := start.Status?;
    var all := Assign(hs, CONTENT_LENGTH_NAME, DecimalText(|body|));
    var before, after := AssignLength(hs, body);
    var tail := FieldsText(all) + (CRLF + body);
    RunStart(mode, start, tail);
    var s1 := Started(start);
    RunHeaderSection(mode, s1, before, body, after, CRLF + body);
    var s2 := WithHeaders(s1, all, Some(|body|));
    RunBody(mode, s2, body);
    assert s1.headers + all == all;
  }
}
