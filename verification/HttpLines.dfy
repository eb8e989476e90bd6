// Start lines, framing header values and chunk-size lines of the HTTP/1.1
// parser (modules/web/src/http/parser.c).
module HttpLines {
  import opened Text
  import opened HttpTarget
  import opened HttpSyntax

  // ---------------------------------------------------------------------
  // Request line
  // ---------------------------------------------------------------------

  /** Last position of c in s, or -1. */
  function LastIndexOf(s: string, c: char): (i: int)
    ensures -1 <= i < |s|
    ensures forall k :: i < k < |s| ==> s[k] != c
    ensures i >= 0 ==> s[i] == c
  {
    if s == [] then -1
    else if s[|s| - 1] == c then |s| - 1
    else LastIndexOf(s[..|s| - 1], c)
  }

  predicate IsVersion(v: string) {
    |v| == 8 && v[0] == 'H' && v[1] == 'T' && v[2] == 'T' && v[3] == 'P' && v[4] == '/' &&
    IsDigit(v[5]) && v[6] == '.' && IsDigit(v[7])
  }

  function RequestLineOf(line: string): Result<StartLine> {
    var i := IndexOf(line, ' ');
    if line == "" then Err(EmptyRequestLine)
    else if i == 0 || i == |line| then Err(MissingMethodOrTarget)
    else if !AllTchar(line[..i]) then Err(InvalidMethodChar)
    else if i >= METHOD_SIZE then Err(MethodTooLong)
    else TargetAndVersionOf(line[..i], line[i + 1..])
  }

  function TargetAndVersionOf(httpMethod: string, rest: string): Result<StartLine> {
    var p := LastIndexOf(rest, ' ');
    if p < 0 then Err(MissingVersion)
    else if p == 0 then Err(EmptyRequestTarget)
    else if !AllTargetChars(rest[..p]) then Err(InvalidTargetChar)
    else if p >= TARGET_SIZE then Err(TargetTooLong)
    else if TargetVerdict(rest[..p]).Some? then Err(BadTarget(TargetVerdict(rest[..p]).value))
    else
      var v := rest[p + 1..];
      if !IsVersion(v) then Err(InvalidVersion)
      else Ok(Request(rest[..p], httpMethod, DigitValue(v[5]), DigitValue(v[7])))
  }

  method ScanRequestLine(line: string) returns (r: Result<StartLine>)
    ensures r == RequestLineOf(line)
  {
    hide TargetAndVersionOf, IsTchar;
    if |line| == 0 { return Err(EmptyRequestLine); }
    var i := FindChar(line, ' ', 0);
    IndexOfUnique(line, ' ', i);
    if i == 0 || i == |line| { return Err(MissingMethodOrTarget); }
    var nameOk := CheckToken(line, i);
    if !nameOk { return Err(InvalidMethodChar); }
    if i >= METHOD_SIZE { return Err(MethodTooLong); }
    r := ScanTargetAndVersion(line[..i], line, i + 1);
  }

  method ScanTargetAndVersion(httpMethod: string, line: string, restStart: nat) returns (r: Result<StartLine>)
    requires restStart <= |line|
    ensures r == TargetAndVersionOf(httpMethod, line[restStart..])
  {
    hide TargetVerdict;
    ghost var rest := line[restStart..];
    var j := |line|;
    while j > restStart && line[j - 1] != ' '
      invariant restStart <= j <= |line|
      invariant forall k :: j <= k < |line| ==> line[k] != ' '
    {
      j := j - 1;
    }
    LastSpace(line, restStart, j);
    if j == restStart { return Err(MissingVersion); }
    var targetEnd := j - 1;
    if targetEnd <= restStart { return Err(EmptyRequestTarget); }
    var target := line[restStart..targetEnd];
    assert target == rest[..targetEnd - restStart];
    var charsOk := CheckTargetChars(target);
    if !charsOk { return Err(InvalidTargetChar); }
    if |target| >= TARGET_SIZE { return Err(TargetTooLong); }
    var error := SanitizeTarget(target);
    if error.Some? { return Err(BadTarget(error.value)); }
    var v := line[j..];
    assert v == rest[j - restStart..];
    if |v| != 8 || v[0] != 'H' || v[1] != 'T' || v[2] != 'T' || v[3] != 'P' || v[4] != '/' ||
      !IsDigit(v[5]) || v[6] != '.' || !IsDigit(v[7]) {
      return Err(InvalidVersion);
    }
    r := Ok(Request(target, httpMethod, DigitValue(v[5]), DigitValue(v[7])));
  }

  lemma LastSpace(line: string, restStart: nat, j: nat)
    requires restStart <= j <= |line|
    requires forall k :: j <= k < |line| ==> line[k] != ' '
    requires j > restStart ==> line[j - 1] == ' '
    ensures LastIndexOf(line[restStart..], ' ') == j - 1 - restStart
  {
    var rest := line[restStart..];
    var p := LastIndexOf(rest, ' ');
    assert p >= 0 ==> rest[p] == line[restStart + p];
    assert j > restStart ==> rest[j - 1 - restStart] == ' ';
  }

  method CheckTargetChars(target: string) returns (ok: bool)
    ensures ok <==> AllTargetChars(target)
  {
    var k := 0;
    while k < |target|
      invariant k <= |target|
      invariant forall j :: 0 <= j < k ==> target[j] != ' ' && !IsControl(target[j])
    {
      if target[k] == ' ' || target[k] < 0x20 as char || target[k] == 0x7F as char { return false; }
      k := k + 1;
    }
    return true;
  }

  // ---------------------------------------------------------------------
  // Status line
  // ---------------------------------------------------------------------

  function StatusLineOf(line: string): Result<StartLine> {
    if |line| < 12 || line[..5] != "HTTP/" then Err(MalformedResponseLine)
    else if !(IsDigit(line[5]) && line[6] == '.' && IsDigit(line[7]) && line[8] == ' ') then Err(InvalidVersion)
    else if !AllDigits(line[9..12]) then Err(InvalidStatusCode)
    else if |line| > 12 && line[12] != ' ' then Err(MalformedReason)
    else
      var reason := if |line| > 12 then line[13..] else "";
      if |reason| >= MAX_REQUEST_LINE then Err(ReasonTooLong)
      else if !AllFieldChars(reason) then Err(InvalidReasonChar)
      else Ok(Status(DecimalValue(line[9..12]), reason, DigitValue(line[5]), DigitValue(line[7])))
  }

  method ScanStatusLine(line: string) returns (r: Result<StartLine>)
    ensures r == StatusLineOf(line)
  {
    if |line| < 12 || line[..5] != "HTTP/" { return Err(MalformedResponseLine); }
    if !IsDigit(line[5]) || line[6] != '.' || !IsDigit(line[7]) || line[8] != ' ' { return Err(InvalidVersion); }
    ghost var digits := line[9..12];
    assert digits[0] == line[9] && digits[1] == line[10] && digits[2] == line[11];
    if !IsDigit(line[9]) || !IsDigit(line[10]) || !IsDigit(line[11]) { return Err(InvalidStatusCode); }
    var code := DigitValue(line[9]) * 100 + DigitValue(line[10]) * 10 + DigitValue(line[11]);
    ThreeDigits(digits);
    if |line| > 12 && line[12] != ' ' { return Err(MalformedReason); }
    var i := 12;
    if i < |line| { i := i + 1; }
    if |line| - i >= MAX_REQUEST_LINE { return Err(ReasonTooLong); }
    var reasonOk := CheckFieldChars(line, i, |line|);
    assert line[i..|line|] == line[i..] == if |line| > 12 then line[13..] else "";
    if !reasonOk { return Err(InvalidReasonChar); }
    r := Ok(Status(code, line[i..], DigitValue(line[5]), DigitValue(line[7])));
  }

  lemma ThreeDigits(s: string)
    requires |s| == 3 && AllDigits(s)
    ensures DecimalValue(s) == DigitValue(s[0]) * 100 + DigitValue(s[1]) * 10 + DigitValue(s[2])
  {
    var two, one := s[..2], s[..1];
    assert two[..1] == one && one[..0] == "";
    assert DecimalValue(one) == DigitValue(s[0]);
    assert DecimalValue(two) == 10 * DecimalValue(one) + DigitValue(s[1]);
  }

  // ---------------------------------------------------------------------
  // Printing start lines
  // ---------------------------------------------------------------------

  predicate ValidStart(s: StartLine) {
    s.major < 10 && s.minor < 10 &&
    match s
    case Request(target, httpMethod, _, _) =>
      0 < |httpMethod| < METHOD_SIZE && AllTchar(httpMethod) &&
      0 < |target| < TARGET_SIZE && AllTargetChars(target) && TargetVerdict(target).None?
    case Status(code, reason, _, _) =>
      code < 1000 && |reason| < MAX_REQUEST_LINE && AllFieldChars(reason)
  }

  function VersionText(major: nat, minor: nat): string
    requires major < 10 && minor < 10
  {
    ['H', 'T', 'T', 'P', '/', Digit(major), '.', Digit(minor)]
  }

  function StartText(s: StartLine): string
    requires ValidStart(s)
  {
    match s
    case Request(target, httpMethod, major, minor) =>
      httpMethod + " " + (target + " " + VersionText(major, minor))
    case Status(code, reason, major, minor) =>
      VersionText(major, minor) + [' ', Digit(code / 100), Digit(code / 10 % 10), Digit(code % 10), ' '] + reason
  }

  function StartLineOf(responseMode: bool, line: string): Result<StartLine> {
    if responseMode then StatusLineOf(line) else RequestLineOf(line)
  }

  lemma TargetAndVersionSound(httpMethod: string, rest: string)
    requires TargetAndVersionOf(httpMethod, rest).Ok?
    ensures var s := TargetAndVersionOf(httpMethod, rest).value;
      && s.Request? && s.httpMethod == httpMethod && s.major < 10 && s.minor < 10
      && 0 < |s.target| < TARGET_SIZE && AllTargetChars(s.target) && TargetVerdict(s.target).None?
      && rest == s.target + " " + VersionText(s.major, s.minor)
  {
    hide TargetVerdict;
    var p := LastIndexOf(rest, ' ');
    var v := rest[p + 1..];
    assert v == VersionText(DigitValue(v[5]), DigitValue(v[7]));
    assert rest == rest[..p] + " " + v;
  }

  /** An accepted request line is the text of the request it yields. */
  lemma RequestLineSound(line: string)
    requires RequestLineOf(line).Ok?
    ensures var s := RequestLineOf(line).value; s.Request? && ValidStart(s) && line == StartText(s)
  {
    hide TargetVerdict, TargetAndVersionOf, IsTchar;
    var i := IndexOf(line, ' ');
    TargetAndVersionSound(line[..i], line[i + 1..]);
    assert line == line[..i] + " " + line[i + 1..];
  }

  lemma TargetAndVersionComplete(s: StartLine)
    requires s.Request? && ValidStart(s)
    ensures TargetAndVersionOf(s.httpMethod, s.target + " " + VersionText(s.major, s.minor)) == Ok(s)
  {
    hide TargetVerdict, IsTchar;
    var v := VersionText(s.major, s.minor);
    var rest := s.target + " " + v;
    assert rest[|s.target| + 1..] == v && rest[|s.target|] == ' ';
    assert forall k :: |s.target| < k < |rest| ==> rest[k] == v[k - |s.target| - 1] && rest[k] != ' ';
    assert LastIndexOf(rest, ' ') == |s.target|;
    assert rest[..|s.target|] == s.target;
  }

  /** Every printed request line is accepted as that request. */
  lemma RequestLineComplete(s: StartLine)
    requires s.Request? && ValidStart(s)
    ensures RequestLineOf(StartText(s)) == Ok(s)
  {
    hide TargetVerdict, TargetAndVersionOf;
    var rest := s.target + " " + VersionText(s.major, s.minor);
    var line := s.httpMethod + " " + rest;
    assert forall k :: 0 <= k < |s.httpMethod| ==> line[k] == s.httpMethod[k] && IsTchar(line[k]);
    IndexOfUnique(line, ' ', |s.httpMethod|);
    assert line[..|s.httpMethod|] == s.httpMethod && line[|s.httpMethod| + 1..] == rest;
    TargetAndVersionComplete(s);
  }

  /** An accepted status line is the text of the status it yields; an empty reason may drop its space. */
  lemma StatusLineSound(line: string)
    requires StatusLineOf(line).Ok?
    ensures var s := StatusLineOf(line).value;
      s.Status? && ValidStart(s) && (line == StartText(s) || (s.reason == "" && line + " " == StartText(s)))
  {
    var digits := line[9..12];
    ThreeDigits(digits);
    var s := StatusLineOf(line).value;
    assert digits[0] == line[9] && digits[1] == line[10] && digits[2] == line[11];
    CodeDigits(DigitValue(line[9]), DigitValue(line[10]), DigitValue(line[11]));
    assert line[..5] == ['H', 'T', 'T', 'P', '/'];
    assert line[..8] == VersionText(s.major, s.minor);
    assert line[8..12] == [' ', line[9], line[10], line[11]];
    if |line| > 12 {
      assert line == line[..8] + line[8..12] + " " + line[13..];
    } else {
      assert line == line[..8] + line[8..12];
    }
  }

  lemma CodeDigits(a: nat, b: nat, c: nat)
    requires a < 10 && b < 10 && c < 10
    ensures var n := 100 * a + 10 * b + c; n / 100 == a && n / 10 % 10 == b && n % 10 == c && n < 1000
  {
  }

  /** Every printed status line is accepted as that status. */
  lemma StatusLineComplete(s: StartLine)
    requires s.Status? && ValidStart(s)
    ensures StatusLineOf(StartText(s)) == Ok(s)
  {
    var line := StartText(s);
    assert line[..5] == "HTTP/";
    assert line[9..12] == [Digit(s.code / 100), Digit(s.code / 10 % 10), Digit(s.code % 10)];
    ThreeDigits(line[9..12]);
    assert line[13..] == s.reason;
  }

  /** Without a reason, the space before it may be missing too. */
  lemma BareStatusLine(s: StartLine)
    requires s.Status? && ValidStart(s) && s.reason == ""
    ensures var line := StartText(s); StatusLineOf(line[..|line| - 1]) == Ok(s)
  {
    var text := StartText(s);
    var line := text[..|text| - 1];
    StatusLineComplete(s);
    assert line[..5] == text[..5] && line[9..12] == text[9..12] && |line| == 12;
  }

  // ---------------------------------------------------------------------
  // Content-Length
  // ---------------------------------------------------------------------

  function DecimalScan(s: string, acc: nat): Result<nat> {
    if s == "" then Ok(acc)
    else if !IsDigit(s[0]) then Err(NonDecimalLength)
    else if acc > (UINT64_MAX - DigitValue(s[0])) / 10 then Err(LengthOverflow)
    else DecimalScan(s[1..], acc * 10 + DigitValue(s[0]))
  }

  function ContentLengthOf(value: string): Result<nat> {
    if value == "" then Err(EmptyContentLength)
    else
      var n := DecimalScan(value, 0);
      if n.Ok? && n.value > MAX_BODY_SIZE then Err(LengthTooLarge) else n
  }

  method ScanContentLength(value: string) returns (r: Result<nat>)
    ensures r == ContentLengthOf(value)
  {
    if |value| == 0 { return Err(EmptyContentLength); }
    var val := 0;
    var i := 0;
    assert value[0..] == value;
    while i < |value|
      invariant i <= |value| && 0 <= val <= UINT64_MAX
      invariant DecimalScan(value, 0) == DecimalScan(value[i..], val)
    {
      var c := value[i];
      if c < '0' || c > '9' { return Err(NonDecimalLength); }
      var digit := DigitValue(c);
      if val > (UINT64_MAX - digit) / 10 { return Err(LengthOverflow); }
      assert value[i..][1..] == value[i + 1..];
      val := val * 10 + digit;
      i := i + 1;
    }
    if val > MAX_BODY_SIZE { return Err(LengthTooLarge); }
    r := Ok(val);
  }

  /** With pre already read, the scan accepts iff the rest is decimal and the whole value fits 64 bits. */
  lemma {:induction false} DecimalScanExact(pre: string, s: string)
    requires AllDigits(pre)
    ensures var r := DecimalScan(s, DecimalValue(pre));
      (r.Ok? <==> AllDigits(s) && (s == "" || DecimalValue(pre + s) <= UINT64_MAX))
      && (r.Ok? ==> r.value == DecimalValue(pre + s))
    decreases |s|
  {
    hide DecimalValue;
    if s == "" {
      assert pre + s == pre;
    } else if IsDigit(s[0]) {
      DecimalSnoc(pre, s[0]);
      DecimalScanExact(pre + [s[0]], s[1..]);
      assert pre + [s[0]] + s[1..] == pre + s;
      assert AllDigits(s) <==> AllDigits(s[1..]);
      if AllDigits(s) { DecimalGrows(pre + [s[0]], s[1..]); }
    }
  }

  /** A Content-Length value is accepted exactly when it is decimal and within the body limit. */
  lemma ContentLengthExact(value: string, n: nat)
    ensures ContentLengthOf(value) == Ok(n)
       <==> value != "" && AllDigits(value) && DecimalValue(value) == n && n <= MAX_BODY_SIZE
  {
    DecimalScanExact("", value);
    assert "" + value == value;
  }

  // ---------------------------------------------------------------------
  // Transfer-Encoding
  // ---------------------------------------------------------------------

  const CHUNKED := "chunked"

  /** Whether "chunked" is in force after this value; seen: it already was. */
  function TransferEncodingOf(value: string, seen: bool): Result<bool>
    decreases |value|
  {
    if value == "" then (if seen then Ok(true) else Err(NotChunked))
    else
      var k := IndexOf(value, ',');
      var coding := TrimRight(TrimLeft(value[..k]));
      if !EqualsIgnoreCase(coding, CHUNKED) then Err(UnsupportedCoding)
      else if k == |value| then Ok(true)
      else TransferEncodingOf(value[k + 1..], true)
  }

  /** One element of the list, from its start to the comma or the end. */
  lemma CodingStep(value: string, start: nat, comma: nat, seen: bool)
    requires start <= comma <= |value| && start < |value|
    requires forall k :: start <= k < comma ==> value[k] != ','
    requires comma < |value| ==> value[comma] == ','
    ensures TransferEncodingOf(value[start..], seen)
         == if !EqualsIgnoreCase(TrimRight(TrimLeft(value[start..comma])), CHUNKED) then Err(UnsupportedCoding)
            else if comma == |value| then Ok(true)
            else TransferEncodingOf(value[comma + 1..], true)
  {
    hide EqualsIgnoreCase;
    var rest := value[start..];
    assert rest[..comma - start] == value[start..comma];
    IndexOfUnique(rest, ',', comma - start);
    if comma < |value| { assert rest[comma - start + 1..] == value[comma + 1..]; }
  }

  method ScanTransferEncoding(value: string, alreadyChunked: bool) returns (r: Result<bool>)
    ensures r == TransferEncodingOf(value, alreadyChunked)
  {
    hide EqualsIgnoreCase, TransferEncodingOf, TrimRight, TrimLeft;
    var chunked := alreadyChunked;
    var start := 0;
    assert value[0..] == value;
    while start < |value|
      invariant start <= |value|
      invariant TransferEncodingOf(value, alreadyChunked) == TransferEncodingOf(value[start..], chunked)
    {
      var comma := FindChar(value, ',', start);
      CodingStep(value, start, comma, chunked);
      var coding := TrimCoding(value[start..comma]);
      if !EqualsIgnoreCase(coding, CHUNKED) { return Err(UnsupportedCoding); }
      chunked := true;
      if comma == |value| { return Ok(true); }
      start := comma + 1;
    }
    assert value[start..] == "";
    NoMoreCodings(chunked);
    if !chunked { return Err(NotChunked); }
    r := Ok(true);
  }

  lemma NoMoreCodings(seen: bool)
    ensures TransferEncodingOf("", seen) == if seen then Ok(true) else Err(NotChunked)
  {
  }

  method TrimCoding(coding: string) returns (t: string)
    ensures t == TrimRight(TrimLeft(coding))
  {
    var from := SkipOws(coding, 0);
    assert coding[0..] == coding;
    var end := DropOws(coding, from);
    t := coding[from..end];
  }

  /** The codings a value lists; nothing after a final comma is no coding at all. */
  function Codings(value: string): seq<string> {
    var pieces := Split(value, ',');
    if pieces[|pieces| - 1] == "" then pieces[..|pieces| - 1] else pieces
  }

  predicate IsChunked(coding: string) { EqualsIgnoreCase(TrimRight(TrimLeft(coding)), CHUNKED) }

  predicate AllChunked(codings: seq<string>) { forall j :: 0 <= j < |codings| ==> IsChunked(codings[j]) }

  lemma AllChunkedCons(first: string, rest: seq<string>)
    ensures AllChunked([first] + rest) <==> IsChunked(first) && AllChunked(rest)
  {
    var all := [first] + rest;
    assert all[0] == first && forall j :: 0 <= j < |rest| ==> all[j + 1] == rest[j];
  }

  lemma CodingsStep(value: string, k: nat)
    requires k <= |value| && value != ""
    requires forall j :: 0 <= j < k ==> value[j] != ','
    requires k < |value| ==> value[k] == ','
    ensures Codings(value) == if k == |value| then [value] else [value[..k]] + Codings(value[k + 1..])
  {
    hide Split;
    SplitStep(value, ',', k);
    if k < |value| {
      var first, rest := [value[..k]], Split(value[k + 1..], ',');
      assert (first + rest)[..|rest|] == first + rest[..|rest| - 1];
      assert (first + rest)[|rest|] == rest[|rest| - 1];
    }
  }

  /** Accepted iff every listed coding is "chunked", and something says so. */
  lemma {:induction false} TransferEncodingExact(value: string, seen: bool)
    ensures TransferEncodingOf(value, seen).Ok? <==> (seen || Codings(value) != []) && AllChunked(Codings(value))
    decreases |value|
  {
    hide IsChunked, AllChunked, Codings;
    if value == "" {
      EmptyCodings();
    } else {
      var k := IndexOf(value, ',');
      CodingsStep(value, k);
      TransferEncodingStep(value, seen, k);
      if k < |value| {
        TransferEncodingExact(value[k + 1..], true);
        AllChunkedCons(value[..k], Codings(value[k + 1..]));
      } else {
        AllChunkedCons(value, []);
        assert [value] + [] == [value];
        EmptyCodings();
      }
    }
  }

  lemma EmptyCodings()
    ensures Codings("") == [] && AllChunked([])
  {
  }

  lemma TransferEncodingStep(value: string, seen: bool, k: nat)
    requires value != "" && k == IndexOf(value, ',')
    ensures TransferEncodingOf(value, seen).Ok? <==>
      IsChunked(value[..k]) && (k < |value| ==> TransferEncodingOf(value[k + 1..], true).Ok?)
    ensures k == |value| ==> value[..k] == value
  {
    hide EqualsIgnoreCase, TrimLeft, TrimRight;
  }

  // ---------------------------------------------------------------------
  // Chunk-size lines
  // ---------------------------------------------------------------------

  /** Value of the hexadecimal prefix and its length, or overflow of 64 bits. */
  function HexScan(s: string, acc: nat): Result<(nat, nat)> {
    if s == "" || HexValue(s[0]) < 0 then Ok((acc, 0))
    else if acc > UINT64_MAX / 16 then Err(ChunkOverflow)
    else match HexScan(s[1..], acc * 16 + HexValue(s[0]))
      case Ok((value, digits)) => Ok((value, digits + 1))
      case Err(e) => Err(e)
  }

  function ChunkSizeOf(line: string): Result<nat> {
    if line == "" then Err(EmptyChunkLine)
    else match HexScan(line, 0)
      case Err(e) => Err(e)
      case Ok((value, digits)) =>
        if digits == 0 || digits > |line| || (digits < |line| && line[digits] != ';') then Err(MalformedChunkLine)
        else if value > MAX_CHUNK_SIZE then Err(ChunkTooLarge)
        else Ok(value)
  }

  function AddDigits(r: Result<(nat, nat)>, n: nat): Result<(nat, nat)> {
    match r
    case Ok((value, digits)) => Ok((value, digits + n))
    case Err(e) => Err(e)
  }

  method ScanChunkSize(line: string) returns (r: Result<nat>)
    ensures r == ChunkSizeOf(line)
  {
    if |line| == 0 { return Err(EmptyChunkLine); }
    var val, digits, i := 0, 0, 0;
    assert line[0..] == line;
    while i < |line| && HexValue(line[i]) >= 0
      invariant i == digits <= |line| && 0 <= val <= UINT64_MAX
      invariant HexScan(line, 0) == AddDigits(HexScan(line[i..], val), digits)
    {
      if val > UINT64_MAX / 16 { return Err(ChunkOverflow); }
      assert line[i..][1..] == line[i + 1..];
      val := val * 16 + HexValue(line[i]);
      digits := digits + 1;
      i := i + 1;
    }
    if digits == 0 { return Err(MalformedChunkLine); }
    if i < |line| && line[i] != ';' { return Err(MalformedChunkLine); }
    if val > MAX_CHUNK_SIZE { return Err(ChunkTooLarge); }
    r := Ok(val);
  }

  /** A chunk-size line: hexadecimal digits, then nothing or an extension. */
  ghost predicate ChunkLineFor(line: string, digits: int, size: nat) {
    && 0 < digits <= |line|
    && AllHex(line[..digits])
    && (digits < |line| ==> line[digits] == ';')
    && HexNumber(line[..digits]) == size
  }

  lemma HexSnoc(pre: string, c: char)
    requires AllHex(pre) && HexValue(c) >= 0
    ensures AllHex(pre + [c]) && HexNumber(pre + [c]) == 16 * HexNumber(pre) + HexValue(c)
  {
    assert (pre + [c])[..|pre|] == pre;
  }

  lemma {:induction false} HexGrows(pre: string, s: string)
    requires AllHex(pre) && AllHex(s)
    ensures AllHex(pre + s) && HexNumber(pre) <= HexNumber(pre + s)
    decreases |s|
  {
    if s == "" {
      assert pre + s == pre;
    } else {
      HexSnoc(pre, s[0]);
      HexGrows(pre + [s[0]], s[1..]);
      assert pre + [s[0]] + s[1..] == pre + s;
    }
  }

  /** With pre already read, the scan reads the remaining digits d and stops. */
  lemma {:induction false} HexScanComplete(pre: string, d: string, rest: string)
    requires AllHex(pre) && AllHex(d) && AllHex(pre + d) && HexNumber(pre + d) <= UINT64_MAX
    requires rest != "" ==> HexValue(rest[0]) < 0
    ensures HexScan(d + rest, HexNumber(pre)) == Ok((HexNumber(pre + d), |d|))
    decreases |d|
  {
    hide HexNumber;
    if d == "" {
      assert d + rest == rest && pre + d == pre;
    } else {
      HexSnoc(pre, d[0]);
      HexGrows(pre + [d[0]], d[1..]);
      assert pre + [d[0]] + d[1..] == pre + d;
      HexScanComplete(pre + [d[0]], d[1..], rest);
      assert (d + rest)[1..] == d[1..] + rest;
    }
  }

  lemma {:induction false} HexScanSound(pre: string, s: string)
    requires AllHex(pre) && HexScan(s, HexNumber(pre)).Ok?
    ensures var (value, digits) := HexScan(s, HexNumber(pre)).value;
      digits <= |s| && AllHex(pre + s[..digits]) && value == HexNumber(pre + s[..digits])
    decreases |s|
  {
    hide HexNumber, AllHex;
    if s != "" && HexValue(s[0]) >= 0 {
      HexSnoc(pre, s[0]);
      HexScanSound(pre + [s[0]], s[1..]);
      var digits := HexScan(s, HexNumber(pre)).value.1;
      assert s[..digits] == [s[0]] + s[1..][..digits - 1];
      assert pre + [s[0]] + s[1..][..digits - 1] == pre + s[..digits];
    } else {
      assert pre + s[..0] == pre;
    }
  }

  /** Accepted with this size exactly when the line is a chunk-size line for it, within the limit. */
  lemma ChunkSizeExact(line: string, size: nat)
    ensures ChunkSizeOf(line) == Ok(size)
       <==> size <= MAX_CHUNK_SIZE && exists digits :: ChunkLineFor(line, digits, size)
  {
    if ChunkSizeOf(line) == Ok(size) {
      HexScanSound("", line);
      var digits := HexScan(line, 0).value.1;
      assert "" + line[..digits] == line[..digits];
      assert ChunkLineFor(line, digits, size);
    }
    if size <= MAX_CHUNK_SIZE {
      forall digits | ChunkLineFor(line, digits, size) ensures ChunkSizeOf(line) == Ok(size) {
        var d := line[..digits];
        assert "" + d == d && d + line[digits..] == line;
        HexScanComplete("", d, line[digits..]);
      }
    }
  }
}
