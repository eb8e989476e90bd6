// Message framing: every encoding of a body, chunked or with a Content-Length,
// decodes to that body.
module HttpFraming {
  import opened Text
  import opened HttpSyntax
  import opened HttpLines
  import opened HttpMachine

  const CRLF := "\r\n"

  /** Ready to read the first character of a line. */
  predicate AtLineStart(s: Parse) { InLine(s) && s.line == "" && !s.sawCr }

  lemma {:induction false} RunText(responseMode: bool, s: Parse, text: string)
    requires InLine(s) && !s.sawCr && NoBreaks(text) && |s.line| + |text| <= s.limit
    ensures Run(responseMode, s, text) == (s.(line := s.line + text), |text|)
    decreases |text|
  {
    hide OnLine;
    if text == "" {
      assert s.line + text == s.line;
    } else {
      RunText(responseMode, s.(line := s.line + [text[0]]), text[1..]);
      assert s.line + [text[0]] + text[1..] == s.line + text;
    }
  }

  lemma RunCrlf(responseMode: bool, s: Parse, rest: string)
    requires InLine(s) && !s.sawCr
    ensures Run(responseMode, s, CRLF + rest) == Advance(Run(responseMode, OnLine(responseMode, s), rest), 2)
  {
    hide OnLine;
    var tail := CRLF + rest;
    assert tail[0] == '\r' && tail[1..][0] == '\n' && tail[1..][1..] == rest;
    assert s.(sawCr := true).(sawCr := false) == s;
  }

  /** A whole line is read and acted upon. */
  lemma RunLine(responseMode: bool, s: Parse, text: string, rest: string)
    requires AtLineStart(s) && WithinLimits(s) && NoBreaks(text) && |text| <= s.limit
    ensures Run(responseMode, s, text + CRLF + rest)
         == Advance(Run(responseMode, OnLine(responseMode, s.(line := text)), rest), |text| + 2)
  {
    hide OnLine, Run, WithinLimits;
    RunText(responseMode, s, text);
    assert s.line + text == text;
    RunSplit(responseMode, s, text, CRLF + rest);
    assert text + CRLF + rest == text + (CRLF + rest);
    RunCrlf(responseMode, s.(line := text), rest);
  }

  // ---------------------------------------------------------------------
  // Content-Length
  // ---------------------------------------------------------------------

  lemma {:induction false} RunFixed(responseMode: bool, s: Parse, bytes: string)
    requires s.Live? && s.phase.BodyFixed? && s.contentLength.Some?
    requires bytes != "" && |s.body| + |bytes| <= s.contentLength.value
    ensures Run(responseMode, s, bytes) == (FixedBytes(s, bytes), |bytes|)
    decreases |bytes|
  {
    var next := FixedBytes(s, [bytes[0]]);
    assert s.body + [bytes[0]] + bytes[1..] == s.body + bytes;
    if |bytes| == 1 {
      assert bytes == [bytes[0]];
      assert Run(responseMode, next, bytes[1..]) == (next, 0);
    } else {
      RunFixed(responseMode, next, bytes[1..]);
    }
  }

  // ---------------------------------------------------------------------
  // Chunked
  // ---------------------------------------------------------------------

  lemma {:induction false} RunChunk(responseMode: bool, s: Parse, bytes: string)
    requires s.Live? && s.phase.ChunkData?
    requires 0 < |bytes| <= s.chunkRemaining
    ensures Run(responseMode, s, bytes) == (ChunkBytes(s, bytes), |bytes|)
    decreases |bytes|
  {
    var next := ChunkBytes(s, [bytes[0]]);
    assert s.body + [bytes[0]] + bytes[1..] == s.body + bytes;
    if |bytes| == 1 {
      assert bytes == [bytes[0]];
      assert Run(responseMode, next, bytes[1..]) == (next, 0);
    } else {
      RunChunk(responseMode, next, bytes[1..]);
    }
  }

  /** A chunk: its size line (hexadecimal size, maybe an extension) and its data. */
  datatype Chunk = Chunk(sizeLine: string, data: string)

  ghost predicate SizeLineFor(line: string, size: nat) {
    |line| <= MAX_CHUNK_LINE && NoBreaks(line) && exists digits :: ChunkLineFor(line, digits, size)
  }

  ghost predicate ValidChunk(c: Chunk) { c.data != "" && SizeLineFor(c.sizeLine, |c.data|) }

  function ChunkText(c: Chunk): string { c.sizeLine + CRLF + (c.data + CRLF) }

  function ChunksText(chunks: seq<Chunk>): string {
    if chunks == [] then "" else ChunkText(chunks[0]) + ChunksText(chunks[1..])
  }

  function ChunksData(chunks: seq<Chunk>): string {
    if chunks == [] then "" else chunks[0].data + ChunksData(chunks[1..])
  }

  /** Between chunks: a chunk-size line comes next. */
  predicate BetweenChunks(s: Parse) {
    AtLineStart(s) && s.phase.ChunkSizeLine? && s.limit == MAX_CHUNK_LINE && WithinLimits(s)
  }

  lemma RunOneChunk(responseMode: bool, s: Parse, c: Chunk, rest: string)
    requires BetweenChunks(s) && ValidChunk(c) && |s.body| + |c.data| <= MAX_BODY_SIZE
    ensures var next := s.(body := s.body + c.data);
      BetweenChunks(next)
      && Run(responseMode, s, ChunkText(c) + rest) == Advance(Run(responseMode, next, rest), |ChunkText(c)|)
  {
    hide ChunkSizeOf, Run;
    var next := s.(body := s.body + c.data);
    var afterSize := OnLine(responseMode, s.(line := c.sizeLine));
    ChunkSizeExact(c.sizeLine, |c.data|);
    var afterData := ChunkBytes(afterSize, c.data);
    assert OnLine(responseMode, afterData.(line := "")) == next;
    LineWithinLimits(responseMode, s.(line := c.sizeLine));
    var tail := c.data + (CRLF + rest);
    RunLine(responseMode, s, c.sizeLine, tail);
    RunChunk(responseMode, afterSize, c.data);
    RunSplit(responseMode, afterSize, c.data, CRLF + rest);
    RunWithinLimits(responseMode, afterSize, c.data);
    RunLine(responseMode, afterData, "", rest);
    assert "" + CRLF + rest == CRLF + rest;
    assert ChunkText(c) + rest == c.sizeLine + CRLF + tail;
  }

  lemma {:induction false} RunChunks(responseMode: bool, s: Parse, chunks: seq<Chunk>, rest: string)
    requires BetweenChunks(s) && |s.body| + |ChunksData(chunks)| <= MAX_BODY_SIZE
    requires forall i :: 0 <= i < |chunks| ==> ValidChunk(chunks[i])
    ensures var next := s.(body := s.body + ChunksData(chunks));
      BetweenChunks(next)
      && Run(responseMode, s, ChunksText(chunks) + rest)
         == Advance(Run(responseMode, next, rest), |ChunksText(chunks)|)
    decreases |chunks|
  {
    hide Run, WithinLimits;
    if chunks == [] {
      assert s.body + "" == s.body;
      assert ChunksText(chunks) + rest == rest;
    } else {
      var next := s.(body := s.body + chunks[0].data);
      var more := ChunksText(chunks[1..]) + rest;
      RunOneChunk(responseMode, s, chunks[0], more);
      RunChunks(responseMode, next, chunks[1..], rest);
      assert ChunksText(chunks) + rest == ChunkText(chunks[0]) + more;
      assert next.body + ChunksData(chunks[1..]) == s.body + ChunksData(chunks);
    }
  }

  // ---------------------------------------------------------------------
  // Header and trailer sections
  // ---------------------------------------------------------------------

  function FieldText(h: Header): string { h.name + ": " + h.value }

  function FieldsText(hs: seq<Header>): string {
    if hs == [] then "" else FieldText(hs[0]) + CRLF + FieldsText(hs[1..])
  }

  predicate PlainFields(hs: seq<Header>) {
    forall i :: 0 <= i < |hs| ==> ValidHeader(hs[i]) && !IsFraming(hs[i].name)
  }

  lemma TextNoBreaks(s: string)
    requires AllTchar(s) || AllFieldChars(s) || AllTargetChars(s)
    ensures NoBreaks(s)
  {
    if AllTchar(s) { assert forall i :: 0 <= i < |s| ==> IsTchar(s[i]); }
  }

  lemma FieldTextLine(h: Header)
    requires ValidHeader(h)
    ensures FieldOf(FieldText(h)) == Ok(h) && FieldText(h) != "" && NoBreaks(FieldText(h))
    ensures |FieldText(h)| == |h.name| + |h.value| + 2
  {
    hide FieldOf;
    FieldComplete(h, " ", "");
    assert h.name + ":" + (" " + (h.value + "")) == FieldText(h);
    TextNoBreaks(h.name);
    TextNoBreaks(h.value);
  }

  /** A field as a sender may spell it: any optional white space around the value. */
  datatype Spelled = Spelled(field: Header, pre: string, post: string)

  function SpelledText(t: Spelled): string { t.field.name + ":" + (t.pre + (t.field.value + t.post)) }

  function SpelledTexts(ts: seq<Spelled>): string {
    if ts == [] then "" else SpelledText(ts[0]) + CRLF + SpelledTexts(ts[1..])
  }

  function Fields(ts: seq<Spelled>): (hs: seq<Header>)
    ensures |hs| == |ts| && forall i :: 0 <= i < |ts| ==> hs[i] == ts[i].field
  {
    if ts == [] then [] else [ts[0].field] + Fields(ts[1..])
  }

  predicate ValidSpelling(t: Spelled) {
    ValidHeader(t.field) && !IsFraming(t.field.name) && AllOws(t.pre) && AllOws(t.post)
  }

  lemma SpelledLine(t: Spelled)
    requires ValidSpelling(t)
    ensures FieldOf(SpelledText(t)) == Ok(t.field) && SpelledText(t) != "" && NoBreaks(SpelledText(t))
  {
    hide FieldOf;
    FieldComplete(t.field, t.pre, t.post);
    TextNoBreaks(t.field.name);
    TextNoBreaks(t.field.value);
    assert NoBreaks(t.pre) && NoBreaks(t.post);
  }

  /** Reading trailers. */
  predicate InTrailers(s: Parse) {
    AtLineStart(s) && s.phase.Trailers? && s.limit == MAX_TRAILER_SIZE && WithinLimits(s)
  }

  /** s after these trailers, of this size in all. */
  function WithTrailers(s: Parse, hs: seq<Header>, bytes: nat): Parse
    requires s.Live?
  {
    s.(trailers := s.trailers + hs, trailerBytes := s.trailerBytes + bytes)
  }

  lemma {:induction false} RunTrailers(responseMode: bool, s: Parse, ts: seq<Spelled>, rest: string)
    requires InTrailers(s) && s.Live? && forall i :: 0 <= i < |ts| ==> ValidSpelling(ts[i])
    requires |s.trailers| + |ts| <= MAX_TRAILER_COUNT && s.trailerBytes + |SpelledTexts(ts)| <= MAX_TRAILER_SIZE
    ensures var next := WithTrailers(s, Fields(ts), |SpelledTexts(ts)|);
      InTrailers(next)
      && Run(responseMode, s, SpelledTexts(ts) + rest) == Advance(Run(responseMode, next, rest), |SpelledTexts(ts)|)
    decreases |ts|
  {
    hide Run, SpelledText, InTrailers, ValidSpelling;
    if ts == [] {
      assert s.trailers + [] == s.trailers && SpelledTexts(ts) + rest == rest;
    } else {
      var n, m := |SpelledText(ts[0])| + 2, |SpelledTexts(ts[1..])|;
      RunOneTrailer(responseMode, s, ts[0], SpelledTexts(ts[1..]) + rest);
      var next := WithTrailers(s, [ts[0].field], n);
      RunTrailers(responseMode, next, ts[1..], rest);
      TrailersJoined(s, ts[0].field, Fields(ts[1..]), n, m);
      hide WithTrailers;
      assert SpelledTexts(ts) + rest == SpelledText(ts[0]) + CRLF + (SpelledTexts(ts[1..]) + rest);
    }
  }

  lemma TrailersJoined(s: Parse, h: Header, hs: seq<Header>, n: nat, m: nat)
    requires s.Live?
    ensures WithTrailers(WithTrailers(s, [h], n), hs, m) == WithTrailers(s, [h] + hs, n + m)
  {
    assert s.trailers + [h] + hs == s.trailers + ([h] + hs);
  }

  lemma RunOneTrailer(responseMode: bool, s: Parse, t: Spelled, more: string)
    requires InTrailers(s) && s.Live? && ValidSpelling(t)
    requires |s.trailers| < MAX_TRAILER_COUNT && s.trailerBytes + |SpelledText(t)| + 2 <= MAX_TRAILER_SIZE
    ensures var line := SpelledText(t);
      var next := WithTrailers(s, [t.field], |line| + 2);
      InTrailers(next)
      && Run(responseMode, s, line + CRLF + more) == Advance(Run(responseMode, next, more), |line| + 2)
  {
    hide Run, FieldOf, SpelledText, WithinLimits, IsFraming;
    var line := SpelledText(t);
    SpelledLine(t);
    LimitBounds(s);
    RunLine(responseMode, s, line, more);
    SetLineWithinLimits(s, line);
    LineWithinLimits(responseMode, s.(line := line));
  }

  lemma LimitBounds(s: Parse)
    requires s.Live? && WithinLimits(s)
    ensures s.limit <= MAX_HEADER_SIZE
  {
  }

  lemma SetLineWithinLimits(s: Parse, line: string)
    requires s.Live? && WithinLimits(s) && NoBreaks(line) && |line| <= s.limit
    ensures WithinLimits(s.(line := line))
  {
  }

  /**
   * A chunked body: chunks, the last chunk, trailer fields in any spelling, an empty line. It
   * is consumed entirely and yields the data of its chunks and its trailers.
   */
  lemma ChunkedBodyDecodes(responseMode: bool, s: Parse, chunks: seq<Chunk>, lastLine: string, trailers: seq<Spelled>)
    requires BetweenChunks(s) && s.trailers == [] && s.trailerBytes == 0
    requires forall i :: 0 <= i < |chunks| ==> ValidChunk(chunks[i])
    requires |s.body| + |ChunksData(chunks)| <= MAX_BODY_SIZE
    requires SizeLineFor(lastLine, 0)
    requires forall i :: 0 <= i < |trailers| ==> ValidSpelling(trailers[i])
    requires |trailers| <= MAX_TRAILER_COUNT && |SpelledTexts(trailers)| <= MAX_TRAILER_SIZE
    ensures var text := ChunksText(chunks) + (lastLine + CRLF + (SpelledTexts(trailers) + CRLF));
      var (end, taken) := Run(responseMode, s, text);
      end.Live? && end.phase.Complete? && taken == |text|
      && end.body == s.body + ChunksData(chunks) && end.trailers == Fields(trailers)
      && end.start == s.start && end.headers == s.headers
  {
    hide ChunkSizeOf, SpelledTexts, ChunksText, WithinLimits, Run, ValidSpelling;
    var fields := SpelledTexts(trailers) + CRLF;
    RunChunks(responseMode, s, chunks, lastLine + CRLF + fields);
    var s1 := s.(body := s.body + ChunksData(chunks));
    ChunkSizeExact(lastLine, 0);
    RunLine(responseMode, s1, lastLine, fields);
    SetLineWithinLimits(s1, lastLine);
    LineWithinLimits(responseMode, s1.(line := lastLine));
    var s2 := OnLine(responseMode, s1.(line := lastLine));
    RunTrailers(responseMode, s2, trailers, CRLF);
    var s3 := s2.(trailers := s2.trailers + Fields(trailers), trailerBytes := |SpelledTexts(trailers)|);
    RunLine(responseMode, s3, "", "");
    assert "" + CRLF + "" == CRLF;
    TerminalAbsorbs(responseMode, OnLine(responseMode, s3.(line := "")), "");
    assert s2.trailers + Fields(trailers) == Fields(trailers);
  }
}
