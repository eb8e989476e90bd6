// The HTTP/1.1 parser as a state machine over single bytes. HttpParser.dfy
// proves that the buffered parser computes exactly this machine; the laws of
// the protocol are proved here.
module HttpMachine {
  import opened Text
  import opened HttpSyntax
  import opened HttpLines

  datatype Phase = StartPhase | Headers | BodyFixed | ChunkSizeLine | ChunkData | ChunkEnd | Trailers | Complete

  datatype Parse =
    | Failed(error: ParseError)
    | Live(
        phase: Phase,
        line: string, sawCr: bool, limit: nat,
        start: Option<StartLine>, headers: seq<Header>, trailers: seq<Header>,
        contentLength: Option<nat>, chunked: bool,
        headerBytes: nat, trailerBytes: nat,
        body: string, chunkRemaining: nat)

  function Initial(): Parse {
    Live(StartPhase, "", false, MAX_REQUEST_LINE, None, [], [], None, false, 0, 0, "", 0)
  }

  /** No further byte is taken in these states. */
  predicate Terminal(s: Parse) { s.Failed? || s.phase.Complete? }

  predicate InLine(s: Parse) {
    s.Live? && (s.phase.StartPhase? || s.phase.Headers? || s.phase.ChunkSizeLine? || s.phase.ChunkEnd? || s.phase.Trailers?)
  }

  /** Ready to read a line of at most `limit` characters in phase p. */
  function NextLine(s: Parse, p: Phase, limit: nat): Parse
    requires s.Live?
  {
    s.(phase := p, line := "", sawCr := false, limit := limit)
  }

  /** Responses with these codes never have a body. */
  predicate Bodiless(code: nat) { 100 <= code < 200 || code == 204 || code == 304 }

  function FinishHeaders(responseMode: bool, s: Parse): Parse
    requires s.Live?
  {
    if responseMode && s.start.Some? && s.start.value.Status? && Bodiless(s.start.value.code) then s.(phase := Complete)
    else if s.contentLength.Some? && s.chunked then Failed(AmbiguousFraming)
    else if s.chunked then NextLine(s, ChunkSizeLine, MAX_CHUNK_LINE)
    else if s.contentLength.Some? && s.contentLength.value > 0 then s.(phase := BodyFixed)
    else s.(phase := Complete)
  }

  const CONTENT_LENGTH := "content-length"
  const TRANSFER_ENCODING := "transfer-encoding"

  predicate IsFraming(name: string) {
    EqualsIgnoreCase(name, CONTENT_LENGTH) || EqualsIgnoreCase(name, TRANSFER_ENCODING)
  }

  /** What a stored header means for the framing of the body. */
  function ApplyFraming(s: Parse, h: Header): Parse
    requires s.Live?
  {
    if EqualsIgnoreCase(h.name, CONTENT_LENGTH) then
      if s.contentLength.Some? then Failed(DuplicateContentLength)
      else match ContentLengthOf(h.value)
        case Err(e) => Failed(e)
        case Ok(n) => s.(contentLength := Some(n))
    else if EqualsIgnoreCase(h.name, TRANSFER_ENCODING) then
      match TransferEncodingOf(h.value, s.chunked)
      case Err(e) => Failed(e)
      case Ok(_) => s.(chunked := true)
    else s
  }

  function HeaderLine(s: Parse): Parse
    requires s.Live?
  {
    match FieldOf(s.line)
    case Err(e) => Failed(e)
    case Ok(h) =>
      if |s.headers| >= MAX_HEADER_COUNT then Failed(TooManyFields)
      else if s.headerBytes + |s.line| + 2 > MAX_HEADER_SIZE then Failed(SectionTooLarge)
      else
        var next := ApplyFraming(s.(headers := s.headers + [h], headerBytes := s.headerBytes + |s.line| + 2), h);
        if next.Failed? then next else NextLine(next, Headers, MAX_HEADER_SIZE)
  }

  function TrailerLine(s: Parse): Parse
    requires s.Live?
  {
    match FieldOf(s.line)
    case Err(e) => Failed(e)
    case Ok(h) =>
      if |s.trailers| >= MAX_TRAILER_COUNT then Failed(TooManyFields)
      else if s.trailerBytes + |s.line| + 2 > MAX_TRAILER_SIZE then Failed(SectionTooLarge)
      else if IsFraming(h.name) then Failed(FramingInTrailers)
      else
        NextLine(s.(trailers := s.trailers + [h], trailerBytes := s.trailerBytes + |s.line| + 2),
                 Trailers, MAX_TRAILER_SIZE)
  }

  function SizeLine(s: Parse): Parse
    requires s.Live?
  {
    match ChunkSizeOf(s.line)
    case Err(e) => Failed(e)
    case Ok(size) =>
      if size == 0 then NextLine(s, Trailers, MAX_TRAILER_SIZE)
      else if size + |s.body| > MAX_BODY_SIZE then Failed(BodyTooLarge)
      else s.(phase := ChunkData, chunkRemaining := size)
  }

  /** The effect of a complete line, whose text is s.line. */
  function OnLine(responseMode: bool, s: Parse): Parse
    requires InLine(s)
  {
    match s.phase
    case StartPhase =>
      (match StartLineOf(responseMode, s.line)
       case Err(e) => Failed(e)
       case Ok(start) => NextLine(s.(start := Some(start)), Headers, MAX_HEADER_SIZE))
    case Headers => if s.line == "" then FinishHeaders(responseMode, s) else HeaderLine(s)
    case ChunkSizeLine => SizeLine(s)
    case ChunkEnd => if s.line != "" then Failed(MalformedChunkEnd) else NextLine(s, ChunkSizeLine, MAX_CHUNK_LINE)
    case _ => if s.line == "" then s.(phase := Complete) else TrailerLine(s)
  }

  function LineByte(responseMode: bool, s: Parse, c: char): (Parse, bool)
    requires InLine(s)
  {
    if s.sawCr then
      (if c == '\n' then OnLine(responseMode, s.(sawCr := false)) else Failed(BareCr), true)
    else if c == '\r' then (s.(sawCr := true), true)
    else if c == '\n' then (Failed(BareLf), false)
    else if c == '\0' then (Failed(EmbeddedNul), false)
    else if |s.line| >= s.limit then (Failed(LineTooLong), false)
    else (s.(line := s.line + [c]), true)
  }

  /** n body bytes arrive; the body is complete when the Content-Length is reached. */
  function FixedBytes(s: Parse, bytes: string): Parse
    requires s.Live?
  {
    var next := s.(body := s.body + bytes);
    if s.contentLength.Some? && |next.body| >= s.contentLength.value then next.(phase := Complete) else next
  }

  function ChunkBytes(s: Parse, bytes: string): Parse
    requires s.Live? && |bytes| <= s.chunkRemaining
  {
    var next := s.(body := s.body + bytes, chunkRemaining := s.chunkRemaining - |bytes|);
    if next.chunkRemaining > 0 then next else NextLine(next, ChunkEnd, 0)
  }

  /** One byte: the next state, and whether the byte was taken. */
  function Step(responseMode: bool, s: Parse, c: char): (Parse, bool) {
    if Terminal(s) then (s, false)
    else if InLine(s) then LineByte(responseMode, s, c)
    else if s.phase.BodyFixed? then (FixedBytes(s, [c]), true)
    else if s.chunkRemaining == 0 then (NextLine(s, ChunkEnd, 0), false)
    else (ChunkBytes(s, [c]), true)
  }

  /** The final state and the number of bytes taken from data. */
  function Run(responseMode: bool, s: Parse, data: string): (Parse, nat)
    decreases |data|
  {
    if data == "" then (s, 0)
    else
      var (next, taken) := Step(responseMode, s, data[0]);
      if !taken then (next, 0) else Advance(Run(responseMode, next, data[1..]), 1)
  }

  function Advance(r: (Parse, nat), n: nat): (Parse, nat) { (r.0, r.1 + n) }

  // ---------------------------------------------------------------------
  // Every reachable state is within the limits
  // ---------------------------------------------------------------------

  predicate NoBreaks(s: string) { forall i :: 0 <= i < |s| ==> s[i] != '\r' && s[i] != '\n' && s[i] != '\0' }

  predicate AllValid(hs: seq<Header>) { forall i :: 0 <= i < |hs| ==> ValidHeader(hs[i]) }

  predicate WithinLimits(s: Parse) {
    s.Live? ==>
      && |s.line| <= s.limit <= MAX_HEADER_SIZE
      && NoBreaks(s.line)
      && |s.headers| <= MAX_HEADER_COUNT && s.headerBytes <= MAX_HEADER_SIZE && AllValid(s.headers)
      && |s.trailers| <= MAX_TRAILER_COUNT && s.trailerBytes <= MAX_TRAILER_SIZE && AllValid(s.trailers)
      && (s.contentLength.Some? ==> s.contentLength.value <= MAX_BODY_SIZE)
      && |s.body| + s.chunkRemaining <= MAX_BODY_SIZE
      && (s.phase.StartPhase? <==> s.start.None?)
      && (s.phase.StartPhase? || s.phase.Headers? ==> s.body == "")
      && (s.phase.ChunkData? <==> s.chunkRemaining > 0)
      && (s.phase.BodyFixed? ==> s.contentLength.Some? && |s.body| < s.contentLength.value)
      && (s.phase.BodyFixed? ==> !s.chunked)
      && (s.phase in {ChunkSizeLine, ChunkData, ChunkEnd, Trailers} ==> s.chunked && s.contentLength.None?)
  }

  lemma InitialWithinLimits()
    ensures WithinLimits(Initial())
  {
  }

  lemma LineWithinLimits(responseMode: bool, s: Parse)
    requires InLine(s) && WithinLimits(s) && !s.sawCr
    ensures WithinLimits(OnLine(responseMode, s))
  {
    hide FieldOf, ContentLengthOf, TransferEncodingOf, ChunkSizeOf, StartLineOf, EqualsIgnoreCase, ValidHeader;
    if s.line != "" && FieldOf(s.line).Ok? {
      var pre, post := FieldSound(s.line);
      var h := FieldOf(s.line).value;
      assert AllValid(s.headers + [h]) && AllValid(s.trailers + [h]);
      ContentLengthLimit(h.value);
    }
  }

  lemma ContentLengthLimit(value: string)
    ensures ContentLengthOf(value).Ok? ==> ContentLengthOf(value).value <= MAX_BODY_SIZE
  {
  }

  lemma StepWithinLimits(responseMode: bool, s: Parse, c: char)
    requires WithinLimits(s)
    ensures WithinLimits(Step(responseMode, s, c).0)
  {
    hide OnLine;
    if InLine(s) && s.sawCr { LineWithinLimits(responseMode, s.(sawCr := false)); }
  }

  /** Whatever bytes arrive, the parser stays within its limits. */
  lemma {:induction false} RunWithinLimits(responseMode: bool, s: Parse, data: string)
    requires WithinLimits(s)
    ensures WithinLimits(Run(responseMode, s, data).0)
    decreases |data|
  {
    hide WithinLimits, Step;
    if data != "" {
      StepWithinLimits(responseMode, s, data[0]);
      var (next, taken) := Step(responseMode, s, data[0]);
      if taken { RunWithinLimits(responseMode, next, data[1..]); }
    }
  }

  // ---------------------------------------------------------------------
  // Cutting the input anywhere changes nothing
  // ---------------------------------------------------------------------

  /** A byte is refused only when the parse is over. */
  lemma RefusedOnlyWhenOver(responseMode: bool, s: Parse, c: char)
    requires WithinLimits(s) && !Step(responseMode, s, c).1
    ensures Terminal(Step(responseMode, s, c).0)
  {
    hide OnLine;
  }

  lemma {:induction false} RunSplit(responseMode: bool, s: Parse, a: string, b: string)
    requires WithinLimits(s)
    ensures var first := Run(responseMode, s, a);
      Run(responseMode, s, a + b) == Advance(Run(responseMode, first.0, b), first.1)
    decreases |a|
  {
    hide WithinLimits, Step;
    if a == "" {
      assert a + b == b;
    } else {
      var (next, taken) := Step(responseMode, s, a[0]);
      assert (a + b)[0] == a[0] && (a + b)[1..] == a[1..] + b;
      StepWithinLimits(responseMode, s, a[0]);
      if taken {
        RunSplit(responseMode, next, a[1..], b);
      } else {
        RefusedOnlyWhenOver(responseMode, s, a[0]);
        TerminalAbsorbs(responseMode, next, b);
      }
    }
  }

  /** COMPLETE and ERROR are absorbing: nothing more is taken. */
  lemma TerminalAbsorbs(responseMode: bool, s: Parse, data: string)
    requires Terminal(s)
    ensures Run(responseMode, s, data) == (s, 0)
  {
  }

  function Concat(pieces: seq<string>): string {
    if pieces == [] then "" else pieces[0] + Concat(pieces[1..])
  }

  /** Feeding the pieces in turn: final state and total bytes taken. */
  function FeedAll(responseMode: bool, s: Parse, pieces: seq<string>): (Parse, nat)
    decreases |pieces|
  {
    if pieces == [] then (s, 0)
    else
      var first := Run(responseMode, s, pieces[0]);
      Advance(FeedAll(responseMode, first.0, pieces[1..]), first.1)
  }

  lemma {:induction false} FragmentationInvariance(responseMode: bool, s: Parse, pieces: seq<string>)
    requires WithinLimits(s)
    ensures FeedAll(responseMode, s, pieces) == Run(responseMode, s, Concat(pieces))
    decreases |pieces|
  {
    hide WithinLimits, Step;
    if pieces != [] {
      RunWithinLimits(responseMode, s, pieces[0]);
      FragmentationInvariance(responseMode, Run(responseMode, s, pieces[0]).0, pieces[1..]);
      RunSplit(responseMode, s, pieces[0], Concat(pieces[1..]));
    }
  }

  /** Two ways of cutting the same bytes cannot be told apart. */
  lemma AnyTwoCutsAgree(responseMode: bool, one: seq<string>, two: seq<string>)
    requires Concat(one) == Concat(two)
    ensures FeedAll(responseMode, Initial(), one) == FeedAll(responseMode, Initial(), two)
  {
    InitialWithinLimits();
    FragmentationInvariance(responseMode, Initial(), one);
    FragmentationInvariance(responseMode, Initial(), two);
  }

  /** What follows a message neither changes it nor is consumed. */
  lemma NothingPastTheMessage(responseMode: bool, s: Parse, message: string, more: string)
    requires WithinLimits(s)
    requires Terminal(Run(responseMode, s, message).0)
    ensures Run(responseMode, s, message + more) == Run(responseMode, s, message)
  {
    RunSplit(responseMode, s, message, more);
    TerminalAbsorbs(responseMode, Run(responseMode, s, message).0, more);
  }

  // ---------------------------------------------------------------------
  // Pipelined messages
  // ---------------------------------------------------------------------

  /** The bytes are exactly one message, which parses to s. */
  ghost predicate ParsesTo(responseMode: bool, message: string, s: Parse) {
    s.Live? && s.phase.Complete? && message != "" && Run(responseMode, Initial(), message) == (s, |message|)
  }

  /** Feed, take the message, reset, feed what was not consumed, until no message completes. */
  function ParseStream(responseMode: bool, data: string): seq<Parse>
    decreases |data|
  {
    var (s, taken) := Run(responseMode, Initial(), data);
    if s.Live? && s.phase.Complete? && 0 < taken <= |data| then [s] + ParseStream(responseMode, data[taken..]) else []
  }

  /** Pipelined messages come out one by one, in order, whatever incomplete data follows. */
  lemma {:induction false} PipelinedMessages(responseMode: bool, messages: seq<string>, parses: seq<Parse>, rest: string)
    requires |messages| == |parses|
    requires forall i :: 0 <= i < |messages| ==> ParsesTo(responseMode, messages[i], parses[i])
    ensures ParseStream(responseMode, Concat(messages) + rest) == parses + ParseStream(responseMode, rest)
    decreases |messages|
  {
    if messages == [] {
      assert Concat(messages) + rest == rest;
    } else {
      var m := messages[0];
      var more := Concat(messages[1..]) + rest;
      var data := Concat(messages) + rest;
      assert data == m + more;
      InitialWithinLimits();
      assert ParsesTo(responseMode, m, parses[0]);
      NothingPastTheMessage(responseMode, Initial(), m, more);
      assert data[|m|..] == more;
      PipelinedMessages(responseMode, messages[1..], parses[1..], rest);
    }
  }
}
