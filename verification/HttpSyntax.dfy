// Line syntax of the HTTP/1.1 parser (modules/web/src/http/parser.c): what each
// line means, and the scanning loops that find it out.
module HttpSyntax {
  import opened Text
  import opened HttpTarget

  const MAX_REQUEST_LINE := 8192
  const MAX_HEADER_SIZE := 32768
  const MAX_HEADER_COUNT := 100
  const MAX_BODY_SIZE := 16 * 1024 * 1024
  const MAX_CHUNK_SIZE := 16 * 1024 * 1024
  const MAX_CHUNK_LINE := 1024
  const MAX_TRAILER_SIZE := 8192
  const MAX_TRAILER_COUNT := 50
  const METHOD_SIZE := 32
  const TARGET_SIZE := MAX_REQUEST_LINE
  const UINT64_MAX := 0xFFFF_FFFF_FFFF_FFFF

  /** One constructor per error text of the parser. */
  datatype ParseError =
    | BareCr | BareLf | EmbeddedNul | LineTooLong
    | EmptyRequestLine | MissingMethodOrTarget | InvalidMethodChar | MethodTooLong
    | MissingVersion | EmptyRequestTarget | InvalidTargetChar | TargetTooLong
    | BadTarget(why: TargetError) | InvalidVersion
    | MalformedResponseLine | InvalidStatusCode | MalformedReason | ReasonTooLong | InvalidReasonChar
    | LineFolding | MissingColon | InvalidNameChar | InvalidValueChar | TooManyFields | SectionTooLarge
    | DuplicateContentLength | EmptyContentLength | NonDecimalLength | LengthOverflow | LengthTooLarge
    | UnsupportedCoding | NotChunked | AmbiguousFraming
    | EmptyChunkLine | ChunkOverflow | MalformedChunkLine | ChunkTooLarge | BodyTooLarge
    | MalformedChunkEnd | FramingInTrailers

  datatype Result<+T> = Ok(value: T) | Err(error: ParseError)

  datatype Header = Header(name: string, value: string)

  datatype StartLine =
    | Request(target: string, httpMethod: string, major: nat, minor: nat)
    | Status(code: nat, reason: string, major: nat, minor: nat)

  predicate IsTchar(c: char) {
    'a' <= c <= 'z' || 'A' <= c <= 'Z' || '0' <= c <= '9' ||
    c == '!' || c == '#' || c == '$' || c == '%' || c == '&' || c == '\'' || c == '*' || c == '+' ||
    c == '-' || c == '.' || c == '^' || c == '_' || c == '`' || c == '|' || c == '~'
  }

  predicate IsOws(c: char) { c == ' ' || c == '\t' }

  predicate IsControl(c: char) { c < 0x20 as char || c == 0x7F as char }

  predicate IsFieldChar(c: char) { c == '\t' || !IsControl(c) }

  predicate AllTchar(s: string) { forall i :: 0 <= i < |s| ==> IsTchar(s[i]) }
  predicate AllOws(s: string) { forall i :: 0 <= i < |s| ==> IsOws(s[i]) }
  predicate AllFieldChars(s: string) { forall i :: 0 <= i < |s| ==> IsFieldChar(s[i]) }
  predicate AllTargetChars(s: string) { forall i :: 0 <= i < |s| ==> s[i] != ' ' && !IsControl(s[i]) }

  /** No optional whitespace at either end. */
  predicate Trimmed(s: string) {
    |s| > 0 ==> !IsOws(s[0]) && !IsOws(s[|s| - 1])
  }

  /** The classes by the characters in them (section 5.6.2 of RFC 9110) and by code. */
  lemma CharClasses(c: char)
    ensures IsTchar(c) <==> c in "!#$%&'*+-.^_`|~" || IsDigit(c) || 'a' <= Lower(c) <= 'z'
    ensures IsOws(c) <==> c in " \t"
    ensures IsFieldChar(c) <==> c as int == 9 || (32 <= c as int && c as int != 127)
  {
  }

  /** No spaces and no controls. */
  lemma TargetChars(s: string)
    ensures AllTargetChars(s) <==> forall i :: 0 <= i < |s| ==> 33 <= s[i] as int && s[i] as int != 127
  {
  }

  // ---------------------------------------------------------------------
  // Field lines
  // ---------------------------------------------------------------------

  function TrimLeft(s: string): string {
    if |s| > 0 && IsOws(s[0]) then TrimLeft(s[1..]) else s
  }

  function TrimRight(s: string): string {
    if |s| > 0 && IsOws(s[|s| - 1]) then TrimRight(s[..|s| - 1]) else s
  }

  function FieldOf(line: string): Result<Header> {
    var colon := IndexOf(line, ':');
    if |line| > 0 && IsOws(line[0]) then Err(LineFolding)
    else if colon == 0 || colon == |line| then Err(MissingColon)
    else if !AllTchar(line[..colon]) then Err(InvalidNameChar)
    else
      var value := TrimRight(TrimLeft(line[colon + 1..]));
      if !AllFieldChars(value) then Err(InvalidValueChar) else Ok(Header(line[..colon], value))
  }

  method FindChar(line: string, c: char, from: nat) returns (i: nat)
    requires from <= |line|
    ensures from <= i <= |line|
    ensures forall k :: from <= k < i ==> line[k] != c
    ensures i < |line| ==> line[i] == c
  {
    i := from;
    while i < |line| && line[i] != c
      invariant from <= i <= |line|
      invariant forall k :: from <= k < i ==> line[k] != c
    {
      i := i + 1;
    }
  }

  method CheckToken(line: string, end: nat) returns (ok: bool)
    requires end <= |line|
    ensures ok <==> AllTchar(line[..end])
  {
    var k := 0;
    while k < end
      invariant k <= end
      invariant forall j :: 0 <= j < k ==> IsTchar(line[j])
    {
      if !IsTchar(line[k]) { assert !IsTchar(line[..end][k]); return false; }
      k := k + 1;
    }
    return true;
  }

  method CheckFieldChars(line: string, start: nat, end: nat) returns (ok: bool)
    requires start <= end <= |line|
    ensures ok <==> AllFieldChars(line[start..end])
  {
    var k := start;
    while k < end
      invariant start <= k <= end
      invariant forall j :: start <= j < k ==> IsFieldChar(line[j])
    {
      if (line[k] < 0x20 as char && line[k] != '\t') || line[k] == 0x7F as char {
        assert !IsFieldChar(line[start..end][k - start]);
        return false;
      }
      k := k + 1;
    }
    return true;
  }

  method SkipOws(line: string, from: nat) returns (start: nat)
    requires from <= |line|
    ensures from <= start <= |line|
    ensures line[start..] == TrimLeft(line[from..])
  {
    start := from;
    while start < |line| && IsOws(line[start])
      invariant from <= start <= |line|
      invariant TrimLeft(line[from..]) == TrimLeft(line[start..])
    {
      assert line[start..][1..] == line[start + 1..];
      start := start + 1;
    }
  }

  method DropOws(line: string, start: nat) returns (end: nat)
    requires start <= |line|
    ensures start <= end <= |line|
    ensures line[start..end] == TrimRight(line[start..])
  {
    end := |line|;
    assert line[start..end] == line[start..];
    while end > start && IsOws(line[end - 1])
      invariant start <= end <= |line|
      invariant TrimRight(line[start..]) == TrimRight(line[start..end])
    {
      assert line[start..end][..end - 1 - start] == line[start..end - 1];
      end := end - 1;
    }
  }

  method ScanField(line: string) returns (r: Result<Header>)
    ensures r == FieldOf(line)
  {
    if |line| > 0 && (line[0] == ' ' || line[0] == '\t') { return Err(LineFolding); }
    var i := FindChar(line, ':', 0);
    IndexOfUnique(line, ':', i);
    if i == 0 || i == |line| { return Err(MissingColon); }
    var nameOk := CheckToken(line, i);
    if !nameOk { return Err(InvalidNameChar); }
    var start := SkipOws(line, i + 1);
    var end := DropOws(line, start);
    var valueOk := CheckFieldChars(line, start, end);
    if !valueOk { return Err(InvalidValueChar); }
    r := Ok(Header(line[..i], line[start..end]));
  }

  /** A header the parser can produce: a token and a trimmed value without control characters. */
  predicate ValidHeader(h: Header) {
    |h.name| > 0 && AllTchar(h.name) && Trimmed(h.value) && AllFieldChars(h.value)
  }

  /** A field line is accepted only if it is a valid header with optional whitespace around the value... */
  lemma FieldSound(line: string) returns (pre: string, post: string)
    requires FieldOf(line).Ok?
    ensures var h := FieldOf(line).value;
      ValidHeader(h) && AllOws(pre) && AllOws(post) && line == h.name + ":" + (pre + (h.value + post))
  {
    var colon := IndexOf(line, ':');
    var tail := line[colon + 1..];
    pre := TrimLeftFacts(tail);
    post := TrimRightFacts(TrimLeft(tail));
    assert line == line[..colon] + ":" + tail;
    var value := TrimRight(TrimLeft(tail));
    if value != "" { assert value[0] == TrimLeft(tail)[0]; }
  }

  /** ...and every such line is accepted as that header. */
  lemma FieldComplete(h: Header, pre: string, post: string)
    requires ValidHeader(h) && AllOws(pre) && AllOws(post)
    ensures FieldOf(h.name + ":" + (pre + (h.value + post))) == Ok(h)
  {
    var tail := pre + (h.value + post);
    var line := h.name + ":" + tail;
    ColonAfterName(h.name, tail);
    if h.value == "" {
      assert tail == (pre + post) + "";
      TrimLeftPad(pre + post, "");
    } else {
      TrimLeftPad(pre, h.value + post);
      TrimRightPad(h.value, post);
    }
  }

  lemma ColonAfterName(name: string, tail: string)
    requires |name| > 0 && AllTchar(name)
    ensures var line := name + ":" + tail; var n := |name|;
      IndexOf(line, ':') == n && line[..n] == name && line[n + 1..] == tail && !IsOws(line[0])
  {
    var line := name + ":" + tail;
    assert forall k :: 0 <= k < |name| ==> line[k] == name[k];
    IndexOfUnique(line, ':', |name|);
  }

  lemma {:induction false} TrimLeftFacts(s: string) returns (pre: string)
    ensures AllOws(pre) && s == pre + TrimLeft(s)
    ensures TrimLeft(s) != "" ==> !IsOws(TrimLeft(s)[0])
  {
    pre := "";
    if |s| > 0 && IsOws(s[0]) {
      var rest := TrimLeftFacts(s[1..]);
      pre := [s[0]] + rest;
    }
  }

  lemma {:induction false} TrimRightFacts(s: string) returns (post: string)
    ensures AllOws(post) && s == TrimRight(s) + post
    ensures TrimRight(s) != "" ==> !IsOws(TrimRight(s)[|TrimRight(s)| - 1])
  {
    post := "";
    if |s| > 0 && IsOws(s[|s| - 1]) {
      var rest := TrimRightFacts(s[..|s| - 1]);
      post := rest + [s[|s| - 1]];
    }
  }

  lemma {:induction false} TrimLeftPad(pre: string, v: string)
    requires AllOws(pre) && (v != "" ==> !IsOws(v[0]))
    ensures TrimLeft(pre + v) == v
  {
    if pre == "" {
      assert pre + v == v;
    } else {
      TrimLeftPad(pre[1..], v);
      assert (pre + v)[1..] == pre[1..] + v;
    }
  }

  lemma {:induction false} TrimRightPad(v: string, post: string)
    requires AllOws(post) && (v != "" ==> !IsOws(v[|v| - 1]))
    ensures TrimRight(v + post) == v
  {
    if post == "" {
      assert v + post == v;
    } else {
      var n := |post| - 1;
      TrimRightPad(v, post[..n]);
      assert (v + post)[..|v| + n] == v + post[..n];
    }
  }
}
