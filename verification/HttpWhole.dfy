// Whole messages: from the bytes of a start line, header fields in any spelling
// and a body to the message the parser delivers or the error it reports.
module HttpWhole {
  import opened Text
  import opened HttpSyntax
  import opened HttpLines
  import opened HttpMachine
  import opened HttpFraming
  import opened HttpMessage

  // ---------------------------------------------------------------------
  // What header fields say about the body
  // ---------------------------------------------------------------------

  predicate IsLength(h: Header) { EqualsIgnoreCase(h.name, "Content-Length") }
  predicate IsTransfer(h: Header) { EqualsIgnoreCase(h.name, "Transfer-Encoding") }

  /** Every listed coding is "chunked", in any case. */
  predicate OnlyChunked(value: string) {
    var codings := Codings(value);
    forall i :: 0 <= i < |codings| ==> EqualsIgnoreCase(TrimRight(TrimLeft(codings[i])), "chunked")
  }

  predicate LengthOk(value: string) { value != "" && AllDigits(value) && DecimalValue(value) <= MAX_BODY_SIZE }

  /** Field h is no framing error after the fields hs. */
  predicate FitsAfter(hs: seq<Header>, h: Header) {
    && (IsLength(h) ==> LengthOk(h.value) && forall j :: 0 <= j < |hs| ==> !IsLength(hs[j]))
    && (IsTransfer(h) ==> OnlyChunked(h.value) && (Codings(h.value) != [] || SaysChunked(hs)))
  }

  predicate WellFramed(hs: seq<Header>) { forall i :: 0 <= i < |hs| ==> FitsAfter(hs[..i], hs[i]) }

  predicate SaysChunked(hs: seq<Header>) { exists i :: 0 <= i < |hs| && IsTransfer(hs[i]) }

  /** The value of the last Content-Length field, if there is one. */
  function SaidLength(hs: seq<Header>): Option<nat> {
    if hs == [] then None
    else
      var h := hs[|hs| - 1];
      if IsLength(h) && AllDigits(h.value) then Some(DecimalValue(h.value)) else SaidLength(hs[..|hs| - 1])
  }

  lemma {:induction false} LengthSaid(hs: seq<Header>)
    requires WellFramed(hs)
    ensures SaidLength(hs).Some? <==> exists j :: 0 <= j < |hs| && IsLength(hs[j])
  {
    hide IsTransfer, IsLength, OnlyChunked;
    if hs != [] {
      var n := |hs| - 1;
      FramedPrefix(hs);
      LengthSaid(hs[..n]);
      assert FitsAfter(hs[..n], hs[n]);
    }
  }

  lemma FramedPrefix(hs: seq<Header>)
    requires hs != [] && WellFramed(hs)
    ensures WellFramed(hs[..|hs| - 1]) && FitsAfter(hs[..|hs| - 1], hs[|hs| - 1])
  {
    hide FitsAfter;
    var n := |hs| - 1;
    forall i | 0 <= i < n ensures FitsAfter(hs[..n][..i], hs[..n][i]) { assert hs[..n][..i] == hs[..i]; }
  }

  lemma FramingNames(h: Header)
    ensures IsLength(h) <==> EqualsIgnoreCase(h.name, CONTENT_LENGTH)
    ensures IsTransfer(h) <==> EqualsIgnoreCase(h.name, TRANSFER_ENCODING)
    ensures !(IsLength(h) && IsTransfer(h))
  {
    LowerName(h.name, "Content-Length", CONTENT_LENGTH);
    LowerName(h.name, "Transfer-Encoding", TRANSFER_ENCODING);
  }

  lemma LowerName(s: string, a: string, b: string)
    requires |a| == |b| && forall i :: 0 <= i < |a| ==> Lower(a[i]) == Lower(b[i])
    ensures EqualsIgnoreCase(s, a) <==> EqualsIgnoreCase(s, b)
  {
  }

  lemma OnlyChunkedIs(value: string)
    ensures OnlyChunked(value) <==> AllChunked(Codings(value))
  {
  }

  /** A stored field that fits sets exactly what the fields say so far. */
  lemma FramingApplies(s: Parse, hs: seq<Header>, h: Header)
    requires s.Live? && WellFramed(hs) && FitsAfter(hs, h)
    requires s.contentLength == SaidLength(hs) && s.chunked == SaysChunked(hs)
    ensures ApplyFraming(s, h) == s.(contentLength := SaidLength(hs + [h]), chunked := SaysChunked(hs + [h]))
  {
    hide EqualsIgnoreCase, ContentLengthOf, TransferEncodingOf, AllChunked, Codings, OnlyChunked;
    FramingNames(h);
    LengthSaid(hs);
    SaysNext(hs, h);
    if IsLength(h) {
      hide IsLength, IsTransfer;
      ContentLengthExact(h.value, DecimalValue(h.value));
    } else if IsTransfer(h) {
      hide IsLength, IsTransfer;
      OnlyChunkedIs(h.value);
      TransferEncodingExact(h.value, s.chunked);
    }
  }

  lemma SaysNext(hs: seq<Header>, h: Header)
    ensures SaysChunked(hs + [h]) <==> SaysChunked(hs) || IsTransfer(h)
    ensures SaidLength(hs + [h]) == if IsLength(h) && AllDigits(h.value) then Some(DecimalValue(h.value)) else SaidLength(hs)
  {
    hide IsTransfer, IsLength;
    var all := hs + [h];
    assert all[..|all| - 1] == hs && all[|hs|] == h;
    if i :| 0 <= i < |hs| && IsTransfer(hs[i]) { assert all[i] == hs[i]; }
  }

  // ---------------------------------------------------------------------
  // Reading header fields
  // ---------------------------------------------------------------------

  predicate AnySpelling(t: Spelled) { ValidHeader(t.field) && AllOws(t.pre) && AllOws(t.post) }

  predicate AnySpellings(ts: seq<Spelled>) { forall i :: 0 <= i < |ts| ==> AnySpelling(ts[i]) }

  /** The state after the start line and these fields. */
  function Framed(start: StartLine, ts: seq<Spelled>): Parse {
    var hs := Fields(ts);
    Started(start).(headers := hs, headerBytes := |SpelledTexts(ts)|, contentLength := SaidLength(hs), chunked := SaysChunked(hs))
  }

  lemma {:induction false} SpelledSnoc(ts: seq<Spelled>, t: Spelled)
    ensures SpelledTexts(ts + [t]) == SpelledTexts(ts) + (SpelledText(t) + CRLF)
    ensures Fields(ts + [t]) == Fields(ts) + [t.field]
  {
    hide SpelledText;
    if ts == [] {
      assert SpelledTexts([t]) == SpelledText(t) + CRLF + SpelledTexts([]);
    } else {
      SpelledSnoc(ts[1..], t);
      assert (ts + [t])[1..] == ts[1..] + [t];
    }
  }

  lemma AnyLine(t: Spelled)
    requires AnySpelling(t)
    ensures FieldOf(SpelledText(t)) == Ok(t.field) && SpelledText(t) != "" && NoBreaks(SpelledText(t))
  {
    hide FieldOf;
    FieldComplete(t.field, t.pre, t.post);
    TextNoBreaks(t.field.name);
    TextNoBreaks(t.field.value);
    assert NoBreaks(t.pre) && NoBreaks(t.post);
  }

  /** One header line, up to what its field means for the framing. */
  lemma RunField(mode: bool, s: Parse, t: Spelled, rest: string)
    requires InHeaders(s) && s.Live? && AnySpelling(t)
    requires |s.headers| < MAX_HEADER_COUNT && s.headerBytes + |SpelledText(t)| + 2 <= MAX_HEADER_SIZE
    ensures var line := SpelledText(t);
      var stored := s.(line := line, headers := s.headers + [t.field], headerBytes := s.headerBytes + |line| + 2);
      var framed := ApplyFraming(stored, t.field);
      var next := if framed.Failed? then framed else NextLine(framed, Headers, MAX_HEADER_SIZE);
      && WithinLimits(next)
      && Run(mode, s, line + CRLF + rest) == Advance(Run(mode, next, rest), |line| + 2)
  {
    hide Run, FieldOf, SpelledText, WithinLimits, ApplyFraming;
    var line := SpelledText(t);
    AnyLine(t);
    RunLine(mode, s, line, rest);
    SetLineWithinLimits(s, line);
    LineWithinLimits(mode, s.(line := line));
  }

  lemma {:induction false} RunFields(mode: bool, start: StartLine, ts: seq<Spelled>, rest: string)
    requires AnySpellings(ts) && WellFramed(Fields(ts))
    requires |ts| <= MAX_HEADER_COUNT && |SpelledTexts(ts)| <= MAX_HEADER_SIZE
    ensures var next := Framed(start, ts);
      InHeaders(next)
      && Run(mode, Started(start), SpelledTexts(ts) + rest) == Advance(Run(mode, next, rest), |SpelledTexts(ts)|)
    decreases |ts|
  {
    hide Run, SpelledText, WellFramed, ApplyFraming, WithinLimits, AnySpelling, Framed, Started, InHeaders, FitsAfter;
    if ts == [] {
      NothingFramed(start);
      assert SpelledTexts(ts) + rest == rest;
    } else {
      var n := |ts| - 1;
      LastField(ts);
      RunFields(mode, start, ts[..n], SpelledText(ts[n]) + CRLF + rest);
      FieldFramed(mode, start, ts[..n], ts[n], rest);
      hide SpelledTexts, Fields;
      assert SpelledTexts(ts) + rest == SpelledTexts(ts[..n]) + (SpelledText(ts[n]) + CRLF + rest);
    }
  }

  lemma LastField(ts: seq<Spelled>)
    requires ts != []
    ensures var n := |ts| - 1;
      && ts[..n] + [ts[n]] == ts && SpelledTexts(ts) == SpelledTexts(ts[..n]) + (SpelledText(ts[n]) + CRLF)
      && (WellFramed(Fields(ts)) ==> WellFramed(Fields(ts[..n])) && FitsAfter(Fields(ts[..n]), ts[n].field))
  {
    hide SpelledText, WellFramed, FitsAfter, SpelledTexts, Fields;
    var n := |ts| - 1;
    assert ts[..n] + [ts[n]] == ts;
    SpelledSnoc(ts[..n], ts[n]);
    if WellFramed(Fields(ts)) { FramedSnoc(Fields(ts[..n]), ts[n].field); }
  }

  lemma FramedSnoc(hs: seq<Header>, h: Header)
    requires WellFramed(hs + [h])
    ensures WellFramed(hs) && FitsAfter(hs, h)
  {
    hide WellFramed, FitsAfter;
    FramedPrefix(hs + [h]);
    assert (hs + [h])[..|hs|] == hs;
  }

  lemma NothingFramed(start: StartLine)
    ensures Framed(start, []) == Started(start) && InHeaders(Framed(start, [])) && WellFramed(Fields([]))
  {
  }

  lemma FieldFramed(mode: bool, start: StartLine, before: seq<Spelled>, t: Spelled, rest: string)
    requires AnySpelling(t) && InHeaders(Framed(start, before))
    requires |before| < MAX_HEADER_COUNT && |SpelledTexts(before)| + |SpelledText(t)| + 2 <= MAX_HEADER_SIZE
    requires WellFramed(Fields(before)) && FitsAfter(Fields(before), t.field)
    ensures var s, line := Framed(start, before), SpelledText(t);
      var next := Framed(start, before + [t]);
      InHeaders(next) && Run(mode, s, line + CRLF + rest) == Advance(Run(mode, next, rest), |line| + 2)
  {
    hide Run, SpelledText, WellFramed, FitsAfter, ApplyFraming, WithinLimits, AnySpelling, SaidLength, SaysChunked;
    var s, line := Framed(start, before), SpelledText(t);
    var stored := s.(line := line, headers := s.headers + [t.field], headerBytes := s.headerBytes + |line| + 2);
    RunField(mode, s, t, rest);
    FramingApplies(stored, Fields(before), t.field);
    SpelledSnoc(before, t);
    assert NextLine(ApplyFraming(stored, t.field), Headers, MAX_HEADER_SIZE) == Framed(start, before + [t]);
  }

  // ---------------------------------------------------------------------
  // Whole messages
  // ---------------------------------------------------------------------

  /** A start line and fields the parser has room for. */
  predicate ValidHead(start: StartLine, ts: seq<Spelled>) {
    && ValidStart(start) && |StartText(start)| <= MAX_REQUEST_LINE
    && AnySpellings(ts) && |ts| <= MAX_HEADER_COUNT && |SpelledTexts(ts)| <= MAX_HEADER_SIZE
  }

  function HeadText(start: StartLine, ts: seq<Spelled>): string
    requires ValidStart(start)
  {
    StartText(start) + CRLF + SpelledTexts(ts)
  }

  /** A response that has no body whatever its fields say (section 6.3 of RFC 9112). */
  predicate NeverHasBody(start: StartLine) {
    start.Status? && (start.code / 100 == 1 || start.code == 204 || start.code == 304)
  }

  lemma RunHead(start: StartLine, ts: seq<Spelled>, rest: string)
    requires ValidHead(start, ts) && WellFramed(Fields(ts))
    ensures InHeaders(Framed(start, ts))
    ensures Run(start.Status?, Initial(), HeadText(start, ts) + rest)
         == Advance(Run(start.Status?, Framed(start, ts), rest), |HeadText(start, ts)|)
  {
    hide Run, StartText, ValidStart, WellFramed, SpelledTexts, WithinLimits;
    RunStart(start.Status?, start, SpelledTexts(ts) + rest);
    RunFields(start.Status?, start, ts, rest);
    assert HeadText(start, ts) + rest == StartText(start) + CRLF + (SpelledTexts(ts) + rest);
  }

  /** What the empty line after the fields leads to. */
  lemma RunEmptyLine(start: StartLine, ts: seq<Spelled>, rest: string)
    requires ValidHead(start, ts) && WellFramed(Fields(ts))
    ensures var s := Framed(start, ts);
      && WithinLimits(FinishHeaders(start.Status?, s))
      && Run(start.Status?, Initial(), HeadText(start, ts) + (CRLF + rest))
         == Advance(Run(start.Status?, FinishHeaders(start.Status?, s), rest), |HeadText(start, ts)| + 2)
  {
    hide Run, ValidHead, WellFramed, Framed, WithinLimits, HeadText;
    ValidHeadStart(start, ts);
    RunHead(start, ts, CRLF + rest);
    var s := Framed(start, ts);
    FramedLive(start, ts);
    RunCrlf(start.Status?, s, rest);
    LineWithinLimits(start.Status?, s);
  }

  lemma ValidHeadStart(start: StartLine, ts: seq<Spelled>)
    requires ValidHead(start, ts)
    ensures ValidStart(start)
  {
  }

  lemma FramedLive(start: StartLine, ts: seq<Spelled>)
    ensures var s := Framed(start, ts); s.Live? && s.line == "" && !s.sawCr && s.phase.Headers?
  {
  }

  lemma NeverHasBodyIs(start: StartLine)
    requires ValidStart(start)
    ensures NeverHasBody(start) <==> start.Status? && Bodiless(start.code)
  {
  }

  /** The message that was delivered. */
  predicate Delivers(r: (Parse, nat), size: nat, start: StartLine, ts: seq<Spelled>, body: string, trailers: seq<Header>) {
    var (s, taken) := r;
    && taken == size && s.Live? && s.phase.Complete?
    && s.start == Some(start) && s.headers == Fields(ts) && s.body == body && s.trailers == trailers
  }

  /**
    * A message with a Transfer-Encoding and no Content-Length: chunks of any sizes
    * and extensions, the last chunk and trailers are read to the end, and the body
    * is the data of the chunks.
    */
  lemma ChunkedMessage(start: StartLine, ts: seq<Spelled>, chunks: seq<Chunk>, lastLine: string, trailers: seq<Spelled>)
    requires ValidHead(start, ts) && WellFramed(Fields(ts)) && !NeverHasBody(start)
    requires SaysChunked(Fields(ts)) && SaidLength(Fields(ts)).None?
    requires (forall i :: 0 <= i < |chunks| ==> ValidChunk(chunks[i])) && |ChunksData(chunks)| <= MAX_BODY_SIZE
    requires SizeLineFor(lastLine, 0)
    requires forall i :: 0 <= i < |trailers| ==> ValidSpelling(trailers[i])
    requires |trailers| <= MAX_TRAILER_COUNT && |SpelledTexts(trailers)| <= MAX_TRAILER_SIZE
    ensures var body := ChunksText(chunks) + (lastLine + CRLF + (SpelledTexts(trailers) + CRLF));
      var text := HeadText(start, ts) + (CRLF + body);
      Delivers(Run(start.Status?, Initial(), text), |text|, start, ts, ChunksData(chunks), Fields(trailers))
  {
    hide Run, ValidChunk, SizeLineFor, ValidSpelling, SpelledTexts, ChunksText, ChunksData, WithinLimits, WellFramed, SaysChunked, SaidLength, HeadText;
    var body := ChunksText(chunks) + (lastLine + CRLF + (SpelledTexts(trailers) + CRLF));
    RunEmptyLine(start, ts, body);
    NeverHasBodyIs(start);
    var s := FinishHeaders(start.Status?, Framed(start, ts));
    ChunkedBodyDecodes(start.Status?, s, chunks, lastLine, trailers);
    assert "" + ChunksData(chunks) == ChunksData(chunks);
  }

  /** A message with a Content-Length and no Transfer-Encoding: that many bytes follow the empty line. */
  lemma LengthMessage(start: StartLine, ts: seq<Spelled>, body: string)
    requires ValidHead(start, ts) && WellFramed(Fields(ts)) && !NeverHasBody(start)
    requires !SaysChunked(Fields(ts)) && SaidLength(Fields(ts)) == Some(|body|)
    ensures var text := HeadText(start, ts) + (CRLF + body);
      Delivers(Run(start.Status?, Initial(), text), |text|, start, ts, body, [])
  {
    hide Run, WithinLimits, WellFramed, SaysChunked, SaidLength, HeadText;
    RunEmptyLine(start, ts, body);
    NeverHasBodyIs(start);
    var s := FinishHeaders(start.Status?, Framed(start, ts));
    if body == "" {
      TerminalAbsorbs(start.Status?, s, body);
    } else {
      RunFixed(start.Status?, s, body);
      assert "" + body == body;
    }
  }

  /**
    * A message with neither, and a response that never has a body, whatever its
    * fields say: it ends at the empty line and takes nothing of what follows.
    */
  lemma BodilessMessage(start: StartLine, ts: seq<Spelled>, more: string)
    requires ValidHead(start, ts) && WellFramed(Fields(ts))
    requires NeverHasBody(start) || (!SaysChunked(Fields(ts)) && SaidLength(Fields(ts)).None?)
    ensures var text := HeadText(start, ts) + CRLF;
      Delivers(Run(start.Status?, Initial(), text + more), |text|, start, ts, "", [])
  {
    hide Run, WithinLimits, WellFramed, SaysChunked, SaidLength, HeadText;
    RunEmptyLine(start, ts, more);
    NeverHasBodyIs(start);
    TerminalAbsorbs(start.Status?, FinishHeaders(start.Status?, Framed(start, ts)), more);
    assert HeadText(start, ts) + CRLF + more == HeadText(start, ts) + (CRLF + more);
  }

  /** Both framings at once are refused at the empty line. */
  lemma AmbiguousRefused(start: StartLine, ts: seq<Spelled>, more: string)
    requires ValidHead(start, ts) && WellFramed(Fields(ts)) && !NeverHasBody(start)
    requires SaysChunked(Fields(ts)) && SaidLength(Fields(ts)).Some?
    ensures Run(start.Status?, Initial(), HeadText(start, ts) + (CRLF + more))
         == (Failed(AmbiguousFraming), |HeadText(start, ts)| + 2)
  {
    hide Run, WithinLimits, WellFramed, SaysChunked, SaidLength, HeadText;
    RunEmptyLine(start, ts, more);
    NeverHasBodyIs(start);
    TerminalAbsorbs(start.Status?, Failed(AmbiguousFraming), more);
  }

  /** The error of a framing field that does not fit after the others. */
  predicate RefusesField(e: ParseError, hs: seq<Header>, h: Header) {
    if IsLength(h) then
      if SaidLength(hs).Some? then e == DuplicateContentLength
      else if h.value == "" then e == EmptyContentLength
      else if !AllDigits(h.value) then e in {NonDecimalLength, LengthOverflow}
      else e == if DecimalValue(h.value) <= UINT64_MAX then LengthTooLarge else LengthOverflow
    else e == if OnlyChunked(h.value) then NotChunked else UnsupportedCoding
  }

  lemma {:induction false} DecimalErrors(s: string, acc: nat)
    requires DecimalScan(s, acc).Err?
    ensures DecimalScan(s, acc).error in {NonDecimalLength, LengthOverflow}
    ensures AllDigits(s) ==> DecimalScan(s, acc).error == LengthOverflow
    decreases |s|
  {
    if s != "" && IsDigit(s[0]) && acc <= (UINT64_MAX - DigitValue(s[0])) / 10 {
      assert AllDigits(s) ==> AllDigits(s[1..]);
      DecimalErrors(s[1..], acc * 10 + DigitValue(s[0]));
    }
  }

  lemma LengthRefused(value: string)
    requires !LengthOk(value)
    ensures ContentLengthOf(value).Err?
    ensures var e := ContentLengthOf(value).error;
      if value == "" then e == EmptyContentLength
      else if !AllDigits(value) then e in {NonDecimalLength, LengthOverflow}
      else e == if DecimalValue(value) <= UINT64_MAX then LengthTooLarge else LengthOverflow
  {
    hide DecimalValue;
    if ContentLengthOf(value).Ok? {
      ContentLengthExact(value, ContentLengthOf(value).value);
    } else if value != "" {
      DecimalScanExact("", value);
      assert "" + value == value;
      assert DecimalValue("") == 0 by { DecimalNothing(); }
      if DecimalScan(value, 0).Err? { DecimalErrors(value, 0); }
    }
  }

  lemma DecimalNothing()
    ensures DecimalValue("") == 0
  {
  }

  lemma {:induction false} TransferErrors(value: string, seen: bool)
    requires TransferEncodingOf(value, seen).Err?
    ensures TransferEncodingOf(value, seen).error == if value == "" then NotChunked else UnsupportedCoding
    decreases |value|
  {
    hide EqualsIgnoreCase, TrimLeft, TrimRight;
    if value != "" {
      var k := IndexOf(value, ',');
      if k < |value| && TransferEncodingOf(value[k + 1..], true).Err? { TransferErrors(value[k + 1..], true); }
    }
  }

  lemma TransferRefused(value: string, seen: bool)
    requires !(OnlyChunked(value) && (Codings(value) != [] || seen))
    ensures TransferEncodingOf(value, seen)
         == Err(if OnlyChunked(value) then NotChunked else UnsupportedCoding)
  {
    hide TransferEncodingOf, Codings, AllChunked, OnlyChunked;
    OnlyChunkedIs(value);
    TransferEncodingExact(value, seen);
    TransferErrors(value, seen);
    EmptyCodings();
    if value != "" { CodingsStep(value, IndexOf(value, ',')); }
  }

  lemma FramingRefused(s: Parse, hs: seq<Header>, h: Header)
    requires s.Live? && WellFramed(hs) && !FitsAfter(hs, h)
    requires s.contentLength == SaidLength(hs) && s.chunked == SaysChunked(hs)
    ensures ApplyFraming(s, h).Failed? && RefusesField(ApplyFraming(s, h).error, hs, h)
  {
    hide EqualsIgnoreCase, ContentLengthOf, TransferEncodingOf, Codings, OnlyChunked, LengthOk, DecimalValue, WellFramed;
    FramingNames(h);
    LengthSaid(hs);
    if IsLength(h) {
      hide IsLength, IsTransfer;
      if SaidLength(hs).None? { LengthRefused(h.value); }
    } else {
      hide IsLength, IsTransfer;
      TransferRefused(h.value, s.chunked);
    }
  }

  /** A framing field that does not fit, a second Content-Length among them, ends the parse at its line. */
  lemma FieldRefused(start: StartLine, ts: seq<Spelled>, t: Spelled, more: string)
    requires ValidHead(start, ts + [t]) && WellFramed(Fields(ts)) && !FitsAfter(Fields(ts), t.field)
    ensures var (s, taken) := Run(start.Status?, Initial(), HeadText(start, ts + [t]) + more);
      s.Failed? && taken == |HeadText(start, ts + [t])| && RefusesField(s.error, Fields(ts), t.field)
  {
    hide Run, WithinLimits, WellFramed, FitsAfter, RefusesField, ApplyFraming, SpelledText, AnySpelling, ValidStart, StartText,
      SaidLength, SaysChunked;
    var line := SpelledText(t) + CRLF;
    HeadBefore(start, ts, t);
    var s := Framed(start, ts);
    RunHead(start, ts, line + more);
    RunField(start.Status?, s, t, more);
    var stored := s.(line := SpelledText(t), headers := s.headers + [t.field], headerBytes := s.headerBytes + |SpelledText(t)| + 2);
    FramingRefused(stored, Fields(ts), t.field);
    TerminalAbsorbs(start.Status?, ApplyFraming(stored, t.field), more);
    assert HeadText(start, ts + [t]) + more == HeadText(start, ts) + (line + more);
  }

  lemma HeadBefore(start: StartLine, ts: seq<Spelled>, t: Spelled)
    requires ValidHead(start, ts + [t])
    ensures ValidHead(start, ts) && |ts| < MAX_HEADER_COUNT && AnySpelling(t)
    ensures |SpelledTexts(ts)| + |SpelledText(t)| + 2 <= MAX_HEADER_SIZE
    ensures HeadText(start, ts + [t]) == HeadText(start, ts) + (SpelledText(t) + CRLF)
  {
    hide SpelledTexts, SpelledText, AnySpelling, ValidStart, StartText;
    SpelledSnoc(ts, t);
    assert (ts + [t])[|ts|] == t;
    forall i | 0 <= i < |ts| ensures AnySpelling(ts[i]) { assert (ts + [t])[i] == ts[i]; }
  }

  // ---------------------------------------------------------------------
  // Bytes that may not stand in a line
  // ---------------------------------------------------------------------

  /** After this much of a line, a byte that may not come next ends the parse; only the one after a CR is taken. */
  lemma LineRefused(mode: bool, s: Parse, text: string, c: char, more: string)
    requires AtLineStart(s) && WithinLimits(s) && NoBreaks(text) && |text| <= s.limit
    ensures c == '\n' ==> Run(mode, s, text + ([c] + more)) == (Failed(BareLf), |text|)
    ensures c == '\0' ==> Run(mode, s, text + ([c] + more)) == (Failed(EmbeddedNul), |text|)
    ensures c !in "\r\n\0" && |text| == s.limit ==> Run(mode, s, text + ([c] + more)) == (Failed(LineTooLong), |text|)
    ensures c != '\n' ==> Run(mode, s, text + ("\r" + ([c] + more))) == (Failed(BareCr), |text| + 2)
  {
    hide WithinLimits;
    RunText(mode, s, text);
    assert "" + text == text;
    RunSplit(mode, s, text, [c] + more);
    RunSplit(mode, s, text, "\r" + ([c] + more));
    assert ("\r" + ([c] + more))[1..] == [c] + more && ([c] + more)[1..] == more;
    TerminalAbsorbs(mode, Failed(BareCr), more);
  }
}
