// The incremental HTTP/1.1 parser of modules/web/src/http/parser.c: a growing
// line buffer and body buffer, filled from whatever piece of input arrives.
// Every method is proved against the byte machine of HttpMachine.dfy.
module HttpParser {
  import opened Text
  import opened HttpSyntax
  import opened HttpLines
  import opened HttpMachine
  import opened HttpFraming

  datatype Status = Incomplete | Completed | Error

  datatype LineResult = LineDone | NeedMore | LineFailed

  /** Where a run from state s over data[pos..] ends, counting from the start of data. */
  ghost function Rest(responseMode: bool, s: Parse, data: string, pos: nat): (Parse, nat)
    requires pos <= |data|
  {
    Advance(Run(responseMode, s, data[pos..]), pos)
  }

  lemma RestStep(responseMode: bool, s: Parse, data: string, pos: nat)
    requires pos < |data|
    ensures var (next, taken) := Step(responseMode, s, data[pos]);
      Rest(responseMode, s, data, pos) == if taken then Rest(responseMode, next, data, pos + 1) else (next, pos)
  {
    hide Step;
    assert data[pos..][1..] == data[pos + 1..];
  }

  lemma RestOver(responseMode: bool, s: Parse, data: string, pos: nat)
    requires pos <= |data| && (pos == |data| || Terminal(s))
    ensures Rest(responseMode, s, data, pos) == (s, pos)
  {
  }

  lemma RestFixed(responseMode: bool, s: Parse, data: string, pos: nat, take: nat)
    requires WithinLimits(s) && s.Live? && s.phase.BodyFixed?
    requires 0 < take && pos + take <= |data| && |s.body| + take <= s.contentLength.value
    ensures Rest(responseMode, s, data, pos)
         == Rest(responseMode, FixedBytes(s, data[pos..pos + take]), data, pos + take)
    ensures WithinLimits(FixedBytes(s, data[pos..pos + take]))
  {
    hide Run;
    var bytes := data[pos..pos + take];
    assert data[pos..] == bytes + data[pos + take..];
    RunFixed(responseMode, s, bytes);
    RunSplit(responseMode, s, bytes, data[pos + take..]);
    RunWithinLimits(responseMode, s, bytes);
  }

  lemma RestChunk(responseMode: bool, s: Parse, data: string, pos: nat, take: nat)
    requires WithinLimits(s) && s.Live? && s.phase.ChunkData?
    requires 0 < take <= s.chunkRemaining && pos + take <= |data|
    ensures Rest(responseMode, s, data, pos)
         == Rest(responseMode, ChunkBytes(s, data[pos..pos + take]), data, pos + take)
    ensures WithinLimits(ChunkBytes(s, data[pos..pos + take]))
  {
    hide Run;
    var bytes := data[pos..pos + take];
    assert data[pos..] == bytes + data[pos + take..];
    RunChunk(responseMode, s, bytes);
    RunSplit(responseMode, s, bytes, data[pos + take..]);
    RunWithinLimits(responseMode, s, bytes);
  }

  lemma SawCrWithinLimits(s: Parse)
    requires s.Live? && WithinLimits(s)
    ensures WithinLimits(s.(sawCr := false))
  {
  }

  /** line_buf[0 .. line_len), its allocated size, and how the current line is being read. */
  datatype LineBuffer = LineBuffer(text: string, cap: nat, limit: nat, sawCr: bool)

  /** The request or response under construction, without its body. */
  datatype Message = Message(start: Option<StartLine>, headers: seq<Header>, trailers: seq<Header>)

  /** body[0 .. body_written) and its allocated size. */
  datatype BodyBuffer = BodyBuffer(text: string, cap: nat)

  datatype Framing = Framing(contentLength: Option<nat>, chunked: bool,
                             headerBytes: nat, trailerBytes: nat, chunkRemaining: nat)

  class Parser {
    const responseMode: bool
    var phase: Phase
    var error: Option<ParseError>  // Some in the error state
    var line: LineBuffer
    var message: Message
    var framing: Framing
    var body: BodyBuffer
    var lastConsumed: nat

    /** Both buffers hold what was written to them. */
    ghost predicate Shape()
      reads this
    {
      && |line.text| <= line.cap && |body.text| <= body.cap <= MAX_BODY_SIZE
      && (phase.BodyFixed? && framing.contentLength.Some? ==> framing.contentLength.value <= body.cap)
    }

    /** The machine state the fields stand for. */
    ghost function View(): Parse
      reads this
    {
      if error.Some? then Failed(error.value)
      else
        Live(phase, line.text, line.sawCr, line.limit, message.start, message.headers, message.trailers,
             framing.contentLength, framing.chunked, framing.headerBytes, framing.trailerBytes,
             body.text, framing.chunkRemaining)
    }

    constructor (responseMode: bool)
      ensures Shape() && View() == Initial() && this.responseMode == responseMode
    {
      this.responseMode := responseMode;
      phase, error := StartPhase, None;
      line := LineBuffer("", 0, MAX_REQUEST_LINE, false);
      message := Message(None, [], []);
      framing := Framing(None, false, 0, 0, 0);
      body := BodyBuffer("", 0);
      lastConsumed := 0;
    }

    /** A reset parser is indistinguishable from a fresh one; the line buffer is kept. */
    method Reset()
      modifies this
      requires Shape()
      ensures Shape() && View() == Initial() && lastConsumed == 0 && line.cap == old(line.cap)
    {
      phase, error := StartPhase, None;
      line := LineBuffer("", line.cap, MAX_REQUEST_LINE, false);
      message := Message(None, [], []);
      framing := Framing(None, false, 0, 0, 0);
      body := BodyBuffer("", 0);
      lastConsumed := 0;
    }

    // -------------------------------------------------------------------
    // Line reading
    // -------------------------------------------------------------------

    /** Stores one more character of the line, growing the buffer when it is full. */
    method AppendToLine(c: char)
      requires Shape() && |line.text| < line.limit
      modifies this`line
      ensures Shape() && line == LineBuffer(old(line.text) + [c], line.cap, old(line.limit), old(line.sawCr))
    {
      if |line.text| + 1 > line.cap {
        var newCap := if line.cap > 0 then line.cap * 2 else 256;
        if newCap > line.limit + 1 { newCap := line.limit + 1; }
        line := line.(cap := newCap);
      }
      line := line.(text := line.text + [c]);
    }

    /** Takes input up to and including the next CRLF, or all of it. */
    method ConsumeLine(data: string, from: nat) returns (r: LineResult, pos: nat)
      requires Shape() && InLine(View()) && from <= |data|
      modifies this`line, this`error
      ensures Shape() && from <= pos <= |data|
      ensures r.LineDone? ==> pos > from && InLine(View()) && !line.sawCr
      ensures r.LineDone? ==>
        Rest(responseMode, old(View()), data, from) == Rest(responseMode, OnLine(responseMode, View()), data, pos)
      ensures !r.LineDone? ==> Rest(responseMode, old(View()), data, from) == (View(), pos)
      ensures r.NeedMore? ==> InLine(View()) && pos == |data|
      ensures r.LineFailed? <==> View().Failed?
      ensures WithinLimits(old(View())) ==> WithinLimits(View())
    {
      hide OnLine, Rest, WithinLimits;
      pos := from;
      while pos < |data|
        invariant from <= pos <= |data|
        invariant Shape() && InLine(View())
        invariant WithinLimits(old(View())) ==> WithinLimits(View())
        invariant Rest(responseMode, old(View()), data, from) == Rest(responseMode, View(), data, pos)
      {
        var c := data[pos];
        ghost var now := View();
        RestStep(responseMode, now, data, pos);
        if WithinLimits(now) {
          StepWithinLimits(responseMode, now, c);
          SawCrWithinLimits(now);
        }
        if line.sawCr {
          pos := pos + 1;
          line := line.(sawCr := false);
          if c == '\n' { return LineDone, pos; }
          error := Some(BareCr);
          RestOver(responseMode, View(), data, pos);
          return LineFailed, pos;
        }
        if c == '\r' {
          line := line.(sawCr := true);
          pos := pos + 1;
          continue;
        }
        if c == '\n' { error := Some(BareLf); return LineFailed, pos; }
        if c == '\0' { error := Some(EmbeddedNul); return LineFailed, pos; }
        if |line.text| >= line.limit { error := Some(LineTooLong); return LineFailed, pos; }
        AppendToLine(c);
        pos := pos + 1;
      }
      RestOver(responseMode, View(), data, pos);
      return NeedMore, pos;
    }

    // -------------------------------------------------------------------
    // Complete lines
    // -------------------------------------------------------------------

    method ResetLine(limit: nat)
      modifies this`line
      ensures line == LineBuffer("", old(line.cap), limit, false)
    {
      line := LineBuffer("", line.cap, limit, false);
    }

    method TakeStartLine()
      requires Shape() && AtLineEnd(StartPhase)
      modifies this
      ensures Shape() && View() == OnLine(responseMode, old(View()))
    {
      hide StatusLineOf, RequestLineOf;
      var r: Result<StartLine>;
      if responseMode { r := ScanStatusLine(line.text); } else { r := ScanRequestLine(line.text); }
      match r
      case Err(e) => error := Some(e);
      case Ok(start) =>
        message := message.(start := Some(start));
        ResetLine(MAX_HEADER_SIZE);
        phase := Headers;
    }

    /** Parses the line as a field and checks it against the section's limits. */
    method ParseField(count: nat, maxCount: nat, bytes: nat, maxBytes: nat) returns (r: Result<Header>)
      ensures r == match FieldOf(line.text)
                   case Err(e) => Err(e)
                   case Ok(h) =>
                     if count >= maxCount then Err(TooManyFields)
                     else if bytes + |line.text| + 2 > maxBytes then Err(SectionTooLarge)
                     else Ok(h)
    {
      hide FieldOf;
      r := ScanField(line.text);
      if r.Err? { return; }
      if count >= maxCount { return Err(TooManyFields); }
      if bytes + (|line.text| + 2) > maxBytes { return Err(SectionTooLarge); }
    }

    method ApplyFramingHeader(h: Header)
      requires Shape() && View().Live? && phase.Headers?
      modifies this`framing, this`error
      ensures Shape() && View() == ApplyFraming(old(View()), h)
    {
      hide ContentLengthOf, TransferEncodingOf, EqualsIgnoreCase;
      if EqualsIgnoreCase(h.name, CONTENT_LENGTH) {
        if framing.contentLength.Some? { error := Some(DuplicateContentLength); return; }
        var r := ScanContentLength(h.value);
        match r
        case Err(e) => error := Some(e);
        case Ok(n) => framing := framing.(contentLength := Some(n));
      } else if EqualsIgnoreCase(h.name, TRANSFER_ENCODING) {
        var r := ScanTransferEncoding(h.value, framing.chunked);
        match r
        case Err(e) => error := Some(e);
        case Ok(_) => framing := framing.(chunked := true);
      }
    }

    method TakeHeaderLine()
      requires Shape() && AtLineEnd(Headers) && line.text != ""
      modifies this
      ensures Shape() && View() == OnLine(responseMode, old(View()))
    {
      hide FieldOf, ApplyFraming;
      var r := ParseField(|message.headers|, MAX_HEADER_COUNT, framing.headerBytes, MAX_HEADER_SIZE);
      if r.Err? { error := Some(r.error); return; }
      message := message.(headers := message.headers + [r.value]);
      framing := framing.(headerBytes := framing.headerBytes + |line.text| + 2);
      ApplyFramingHeader(r.value);
      if error.Some? { return; }
      ResetLine(MAX_HEADER_SIZE);
    }

    method BodyReserve(needed: nat)
      requires Shape() && needed <= MAX_BODY_SIZE
      modifies this`body
      ensures Shape() && body.text == old(body.text) && needed <= body.cap && old(body.cap) <= body.cap
    {
      if needed <= body.cap { return; }
      var newCap := if body.cap > 0 then body.cap * 2 else 4096;
      if newCap < needed { newCap := needed; }
      if newCap > MAX_BODY_SIZE { newCap := MAX_BODY_SIZE; }
      body := body.(cap := newCap);
    }

    method EndHeaders()
      requires Shape() && AtLineEnd(Headers) && line.text == "" && WithinLimits(View())
      modifies this
      ensures Shape() && View() == OnLine(responseMode, old(View()))
    {
      if responseMode && message.start.Some? && message.start.value.Status? && Bodiless(message.start.value.code) {
        phase := Complete;
      } else if framing.contentLength.Some? && framing.chunked {
        error := Some(AmbiguousFraming);
      } else if framing.chunked {
        phase := ChunkSizeLine;
        ResetLine(MAX_CHUNK_LINE);
      } else if framing.contentLength.Some? && framing.contentLength.value > 0 {
        BodyReserve(framing.contentLength.value);
        phase := BodyFixed;
      } else {
        phase := Complete;
      }
    }

    method TakeSizeLine()
      requires Shape() && AtLineEnd(ChunkSizeLine)
      modifies this
      ensures Shape() && View() == OnLine(responseMode, old(View()))
    {
      hide ChunkSizeOf;
      var r := ScanChunkSize(line.text);
      if r.Err? { error := Some(r.error); return; }
      var size := r.value;
      if size > 0 && size > MAX_BODY_SIZE - |body.text| { error := Some(BodyTooLarge); return; }
      if size == 0 {
        phase := Trailers;
        ResetLine(MAX_TRAILER_SIZE);
      } else {
        framing := framing.(chunkRemaining := size);
        phase := ChunkData;
      }
    }

    method TakeChunkEnd()
      requires Shape() && AtLineEnd(ChunkEnd)
      modifies this
      ensures Shape() && View() == OnLine(responseMode, old(View()))
    {
      if line.text != "" { error := Some(MalformedChunkEnd); return; }
      phase := ChunkSizeLine;
      ResetLine(MAX_CHUNK_LINE);
    }

    method TakeTrailerLine()
      requires Shape() && AtLineEnd(Trailers)
      modifies this
      ensures Shape() && View() == OnLine(responseMode, old(View()))
    {
      hide FieldOf, EqualsIgnoreCase;
      if line.text == "" { phase := Complete; return; }
      var r := ParseField(|message.trailers|, MAX_TRAILER_COUNT, framing.trailerBytes, MAX_TRAILER_SIZE);
      if r.Err? { error := Some(r.error); return; }
      message := message.(trailers := message.trailers + [r.value]);
      framing := framing.(trailerBytes := framing.trailerBytes + |line.text| + 2);
      if EqualsIgnoreCase(r.value.name, CONTENT_LENGTH) || EqualsIgnoreCase(r.value.name, TRANSFER_ENCODING) {
        error := Some(FramingInTrailers);
        return;
      }
      ResetLine(MAX_TRAILER_SIZE);
    }

    ghost predicate AtLineEnd(p: Phase)
      reads this
    {
      error.None? && phase == p && InLine(View()) && !line.sawCr
    }

    // -------------------------------------------------------------------
    // Body bytes
    // -------------------------------------------------------------------

    method BodyAppend(bytes: string)
      requires Shape() && |body.text| + |bytes| <= MAX_BODY_SIZE
      modifies this`body
      ensures Shape() && body.text == old(body.text) + bytes
    {
      if |bytes| == 0 { assert body.text + bytes == body.text; return; }
      BodyReserve(|body.text| + |bytes|);
      body := body.(text := body.text + bytes);
    }

    /** Takes body bytes until the Content-Length is reached or the input ends. */
    method TakeFixed(data: string, from: nat) returns (pos: nat)
      requires Shape() && View().Live? && phase.BodyFixed? && WithinLimits(View()) && from <= |data|
      modifies this`body, this`phase
      ensures Shape() && WithinLimits(View()) && from <= pos <= |data|
      ensures Rest(responseMode, old(View()), data, from) == Rest(responseMode, View(), data, pos)
      ensures View().Live? && (phase.Complete? || (phase.BodyFixed? && pos == |data|))
    {
      var need := framing.contentLength.value - |body.text|;
      var take := if need < |data| - from then need else |data| - from;
      pos := from;
      if take > 0 {
        RestFixed(responseMode, View(), data, from, take);
        BodyAppend(data[from..from + take]);
        pos := from + take;
      }
      if |body.text| >= framing.contentLength.value { phase := Complete; }
    }

    /** Takes chunk bytes until the chunk or the input ends. */
    method TakeChunk(data: string, from: nat) returns (pos: nat)
      requires Shape() && View().Live? && phase.ChunkData? && WithinLimits(View()) && from <= |data|
      modifies this`body, this`phase, this`framing, this`line
      ensures Shape() && WithinLimits(View()) && from <= pos <= |data|
      ensures Rest(responseMode, old(View()), data, from) == Rest(responseMode, View(), data, pos)
      ensures View().Live? && ((phase.ChunkEnd? && pos > from) || (phase.ChunkData? && pos == |data|))
    {
      var take := if framing.chunkRemaining < |data| - from then framing.chunkRemaining else |data| - from;
      pos := from;
      if take > 0 {
        RestChunk(responseMode, View(), data, from, take);
        BodyAppend(data[from..from + take]);
        pos := from + take;
        framing := framing.(chunkRemaining := framing.chunkRemaining - take);
      }
      if framing.chunkRemaining > 0 { return; }
      phase := ChunkEnd;
      ResetLine(0);
    }

    // -------------------------------------------------------------------
    // The feed loop
    // -------------------------------------------------------------------

    ghost function StatusOf(): Status
      reads this
    {
      if error.Some? then Error else if phase.Complete? then Completed else Incomplete
    }

    /** A complete line has been read: act on it. */
    method TakeLine()
      requires Shape() && AtLineEnd(phase) && WithinLimits(View())
      modifies this
      ensures Shape() && WithinLimits(View()) && View() == OnLine(responseMode, old(View()))
    {
      hide WithinLimits, OnLine;
      LineWithinLimits(responseMode, View());
      if phase.StartPhase? {
        TakeStartLine();
      } else if phase.Headers? {
        if line.text == "" { EndHeaders(); } else { TakeHeaderLine(); }
      } else if phase.ChunkSizeLine? {
        TakeSizeLine();
      } else if phase.ChunkEnd? {
        TakeChunkEnd();
      } else {
        TakeTrailerLine();
      }
    }

    /** Feeds one piece of input; what happened is exactly what the byte machine does. */
    method Feed(data: string) returns (status: Status)
      requires Shape() && WithinLimits(View())
      modifies this
      ensures Shape() && WithinLimits(View())
      ensures (View(), lastConsumed) == Run(responseMode, old(View()), data)
      ensures status == StatusOf()
    {
      hide WithinLimits, OnLine, Run;
      lastConsumed := 0;
      RestOver(responseMode, View(), data, |data|);
      assert data[0..] == data;
      if error.Some? { RestOver(responseMode, View(), data, 0); return Error; }
      if phase.Complete? { RestOver(responseMode, View(), data, 0); return Completed; }
      var pos := 0;
      while true
        invariant Shape() && WithinLimits(View()) && pos <= |data|
        invariant Rest(responseMode, old(View()), data, 0) == Rest(responseMode, View(), data, pos)
        invariant !Terminal(View())
        decreases |data| - pos
      {
        if phase.BodyFixed? {
          pos := TakeFixed(data, pos);
          RestOver(responseMode, View(), data, pos);
          lastConsumed := pos;
          return if phase.Complete? then Completed else Incomplete;
        }
        if phase.ChunkData? {
          pos := TakeChunk(data, pos);
          if phase.ChunkData? {
            RestOver(responseMode, View(), data, pos);
            lastConsumed := pos;
            return Incomplete;
          }
          continue;
        }
        var r;
        r, pos := ConsumeLine(data, pos);
        if !r.LineDone? {
          lastConsumed := pos;
          return if r.NeedMore? then Incomplete else Error;
        }
        TakeLine();
        if error.Some? || phase.Complete? {
          RestOver(responseMode, View(), data, pos);
          lastConsumed := pos;
          return if error.Some? then Error else Completed;
        }
      }
    }
  }
}
