// Request-target checks of the HTTP parser (modules/web/src/http/parser.c) and
// the path decoder of the request layer (modules/web/src/http/server_request.c).
module HttpTarget {
  import opened Text

  datatype TargetError =
    | EmptyTarget | NotOriginForm | Fragment | Backslash
    | MalformedEscape | UnsafeEscape
    | DotSegment | EncodedDotSegment
    | MalformedQueryEscape | UnsafeQueryEscape | InvalidQueryChar

  // ---------------------------------------------------------------------
  // What the sanitizer decides
  // ---------------------------------------------------------------------

  /** A '%' followed by two hexadecimal digits. */
  predicate StartsWithEscape(s: string) {
    |s| >= 3 && s[0] == '%' && HexValue(s[1]) >= 0 && HexValue(s[2]) >= 0
  }

  function EscapedCode(s: string): (v: int)
    requires StartsWithEscape(s)
    ensures 0 <= v < 256
  {
    16 * HexValue(s[1]) + HexValue(s[2])
  }

  predicate UnsafeCode(v: int) {
    v < 0x20 || v == 0x7F || v == '/' as int || v == '\\' as int
  }

  function ScanError(s: string): Option<TargetError> {
    if s == [] then None
    else if s[0] == '#' then Some(Fragment)
    else if s[0] == '\\' then Some(Backslash)
    else if s[0] == '%' then
      if !StartsWithEscape(s) then Some(MalformedEscape)
      else if UnsafeCode(EscapedCode(s)) then Some(UnsafeEscape)
      else ScanError(s[3..])
    else ScanError(s[1..])
  }

  /** A dot in one of its three spellings: ".", "%2e", "%2E". */
  predicate IsDot(s: string) {
    (|s| == 1 && s[0] == '.') || (|s| == 3 && s[0] == '%' && s[1] == '2' && s[2] in {'e', 'E'})
  }

  predicate IsTwoDots(s: string) {
    (|s| >= 1 && IsDot(s[..1]) && IsDot(s[1..])) || (|s| >= 3 && IsDot(s[..3]) && IsDot(s[3..]))
  }

  predicate IsLiteralDots(s: string) {
    (|s| == 1 && s[0] == '.') || (|s| == 2 && s[0] == '.' && s[1] == '.')
  }

  function SegmentError(segment: string): Option<TargetError> {
    if IsLiteralDots(segment) then Some(DotSegment)
    else if IsDot(segment) || IsTwoDots(segment) then Some(EncodedDotSegment)
    else None
  }

  /** First error among a list of path segments. */
  function SegmentsError(segments: seq<string>): Option<TargetError> {
    if segments == [] then None
    else if SegmentError(segments[0]).Some? then SegmentError(segments[0])
    else SegmentsError(segments[1..])
  }

  function QueryError(s: string): Option<TargetError> {
    if s == [] then None
    else if s[0] == '%' then
      if !StartsWithEscape(s) then Some(MalformedQueryEscape)
      else if EscapedCode(s) < 0x20 || EscapedCode(s) == 0x7F then Some(UnsafeQueryEscape)
      else QueryError(s[3..])
    else if s[0] < 0x20 as char || s[0] == 0x7F as char || s[0] == '\\' then Some(InvalidQueryChar)
    else QueryError(s[1..])
  }

  function PathPart(target: string): string { target[..IndexOf(target, '?')] }

  function QueryPart(target: string): string {
    var q := IndexOf(target, '?');
    if q < |target| then target[q + 1..] else ""
  }

  /** The verdict on a request-target; None means accepted. */
  function TargetVerdict(target: string): Option<TargetError> {
    if target == [] then Some(EmptyTarget)
    else if target == "*" then None
    else if target[0] != '/' then Some(NotOriginForm)
    else if ScanError(target).Some? then ScanError(target)
    else
      var segments := SegmentsError(Split(PathPart(target)[1..], '/'));
      if segments.Some? then segments else QueryError(QueryPart(target))
  }

  // ---------------------------------------------------------------------
  // The sanitizer as the parser runs it
  // ---------------------------------------------------------------------

  /** First pass: escapes and forbidden characters; finds the query. */
  method ScanTarget(target: string) returns (error: Option<TargetError>, queryStart: nat)
    ensures error == ScanError(target)
    ensures error.None? ==> queryStart == IndexOf(target, '?')
  {
    queryStart := |target|;
    var i := 0;
    while i < |target|
      invariant i <= |target|
      invariant ScanError(target) == ScanError(target[i..])
      invariant queryStart < i || queryStart == |target|
      invariant queryStart < |target| ==> target[queryStart] == '?'
      invariant forall k :: 0 <= k < i && k < queryStart ==> target[k] != '?'
    {
      var rest := target[i..];
      if target[i] == '#' { return Some(Fragment), queryStart; }
      if target[i] == '\\' { return Some(Backslash), queryStart; }
      if target[i] == '%' {
        if i + 2 >= |target| || HexValue(target[i + 1]) < 0 || HexValue(target[i + 2]) < 0 {
          return Some(MalformedEscape), queryStart;
        }
        var decoded := 16 * HexValue(target[i + 1]) + HexValue(target[i + 2]);
        if UnsafeCode(decoded) { return Some(UnsafeEscape), queryStart; }
        assert rest[3..] == target[i + 3..];
        i := i + 3;
        continue;
      }
      if target[i] == '?' && queryStart == |target| { queryStart := i; }
      assert rest[1..] == target[i + 1..];
      i := i + 1;
    }
    IndexOfUnique(target, '?', queryStart);
    return None, queryStart;
  }

  /** The five spellings of a dot segment, compared byte by byte. */
  method ClassifySegment(t: string, start: nat, length: nat) returns (error: Option<TargetError>)
    requires start + length <= |t|
    ensures error == SegmentError(t[start..start + length])
  {
    ghost var segment := t[start..start + length];
    var i := start;
    if length == 1 && t[i] == '.' { return Some(DotSegment); }
    if length == 2 && t[i] == '.' && t[i + 1] == '.' { return Some(DotSegment); }
    assert forall k :: 0 <= k < length ==> segment[k] == t[i + k];
    if length == 3 && t[i] == '%' && t[i + 1] == '2' && (t[i + 2] == 'e' || t[i + 2] == 'E') {
      return Some(EncodedDotSegment);
    }
    if length == 4 &&
      ((t[i] == '.' && t[i + 1] == '%' && t[i + 2] == '2' && (t[i + 3] == 'e' || t[i + 3] == 'E')) ||
       (t[i] == '%' && t[i + 1] == '2' && (t[i + 2] == 'e' || t[i + 2] == 'E') && t[i + 3] == '.')) {
      return Some(EncodedDotSegment);
    }
    if length == 6 &&
      t[i] == '%' && t[i + 1] == '2' && (t[i + 2] == 'e' || t[i + 2] == 'E') &&
      t[i + 3] == '%' && t[i + 4] == '2' && (t[i + 5] == 'e' || t[i + 5] == 'E') {
      return Some(EncodedDotSegment);
    }
    return None;
  }

  method ScanSegments(t: string, pathEnd: nat) returns (error: Option<TargetError>)
    requires 1 <= pathEnd <= |t|
    ensures error == SegmentsError(Split(t[1..pathEnd], '/'))
  {
    var segmentStart := 1;
    var i := 1;
    while i <= pathEnd
      invariant 1 <= segmentStart <= i <= pathEnd + 1
      invariant i == pathEnd + 1 ==> segmentStart == pathEnd + 1
      invariant forall k :: segmentStart <= k < i && k < pathEnd ==> t[k] != '/'
      invariant SegmentsError(Split(t[1..pathEnd], '/')) == SegmentsFrom(t, segmentStart, pathEnd)
    {
      if i == pathEnd || t[i] == '/' {
        var error := ClassifySegment(t, segmentStart, i - segmentStart);
        FirstSegment(t, segmentStart, i, pathEnd);
        if error.Some? { return error; }
        segmentStart := i + 1;
      }
      i := i + 1;
    }
    return None;
  }

  function SegmentsFrom(t: string, start: nat, pathEnd: nat): Option<TargetError>
    requires start <= pathEnd + 1 && pathEnd <= |t|
  {
    if start <= pathEnd then SegmentsError(Split(t[start..pathEnd], '/')) else None
  }

  lemma FirstSegment(t: string, start: nat, i: nat, pathEnd: nat)
    requires start <= i <= pathEnd <= |t|
    requires forall k :: start <= k < i ==> t[k] != '/'
    requires i < pathEnd ==> t[i] == '/'
    ensures var here := SegmentError(t[start..i]);
      SegmentsFrom(t, start, pathEnd) == if here.Some? then here else SegmentsFrom(t, i + 1, pathEnd)
  {
    var rest := t[start..pathEnd];
    SplitStep(rest, '/', i - start);
    assert rest[..i - start] == t[start..i];
    if i < pathEnd {
      assert rest[i - start + 1..] == t[i + 1..pathEnd];
      assert Split(rest, '/')[1..] == Split(t[i + 1..pathEnd], '/');
    } else {
      assert SegmentsError([rest][1..]) == None;
    }
  }

  method ScanQuery(t: string, queryStart: nat) returns (error: Option<TargetError>)
    requires queryStart < |t|
    ensures error == QueryError(t[queryStart + 1..])
  {
    var i := queryStart + 1;
    while i < |t|
      invariant queryStart + 1 <= i <= |t|
      invariant QueryError(t[queryStart + 1..]) == QueryError(t[i..])
    {
      var c := t[i];
      ghost var rest := t[i..];
      if c == '%' {
        if i + 2 >= |t| || HexValue(t[i + 1]) < 0 || HexValue(t[i + 2]) < 0 {
          return Some(MalformedQueryEscape);
        }
        var decoded := 16 * HexValue(t[i + 1]) + HexValue(t[i + 2]);
        if decoded < 0x20 || decoded == 0x7F { return Some(UnsafeQueryEscape); }
        assert rest[3..] == t[i + 3..];
        i := i + 3;
        continue;
      }
      if c < 0x20 as char || c == 0x7F as char || c == '\\' { return Some(InvalidQueryChar); }
      assert rest[1..] == t[i + 1..];
      i := i + 1;
    }
    return None;
  }

  method SanitizeTarget(target: string) returns (error: Option<TargetError>)
    ensures error == TargetVerdict(target)
  {
    if |target| == 0 { return Some(EmptyTarget); }
    if |target| == 1 && target[0] == '*' { assert target == "*"; return None; }
    if target[0] != '/' { return Some(NotOriginForm); }
    var queryStart;
    error, queryStart := ScanTarget(target);
    if error.Some? { return; }
    assert PathPart(target)[1..] == target[1..queryStart];
    error := ScanSegments(target, queryStart);
    if error.Some? { return; }
    if queryStart < |target| {
      error := ScanQuery(target, queryStart);
    }
  }

  // ---------------------------------------------------------------------
  // The path decoder of the request layer
  // ---------------------------------------------------------------------

  predicate ValidPathChar(c: char) {
    c >= 0x20 as char && c != 0x7F as char &&
    c !in {' ', '"', '<', '>', '\\', '^', '`', '{', '|', '}'}
  }

  /** The next character or escape of encoded text: is it well formed, how long is it, what does it stand for? */
  predicate StepOk(s: string)
    requires s != []
  {
    s[0] == '%' ==> StartsWithEscape(s)
  }

  function StepLength(s: string): (n: nat)
    requires s != [] && StepOk(s)
    ensures 1 <= n <= |s|
  {
    if s[0] == '%' then 3 else 1
  }

  function StepChar(s: string): char
    requires s != [] && StepOk(s)
  {
    if s[0] == '%' then EscapedCode(s) as char else s[0]
  }

  function Prefixed(c: char, rest: Option<string>): Option<string> {
    if rest.None? then None else Some([c] + rest.value)
  }

  /** Every escape replaced once; None when an escape is malformed. */
  function Unescape(s: string): Option<string> {
    if s == [] then Some("")
    else if !StepOk(s) then None
    else Prefixed(StepChar(s), Unescape(s[StepLength(s)..]))
  }

  /** decode_path refuses escaped separators and characters not fit for a path. */
  predicate Decodable(s: string)
    requires s != []
  {
    StepOk(s) && ValidPathChar(StepChar(s)) && (s[0] == '%' ==> StepChar(s) != '/')
  }

  /** What decode_path writes before its length and leading-slash checks. */
  function Decoded(s: string): Option<string> {
    if s == [] then Some("")
    else if !Decodable(s) then None
    else Prefixed(StepChar(s), Decoded(s[StepLength(s)..]))
  }

  /** The text written so far plus the rest of the source is the answer. */
  ghost predicate Joined(src: string, i: nat, written: string)
    requires i <= |src|
  {
    var rest := Decoded(src[i..]);
    Decoded(src) == if rest.None? then None else Some(written + rest.value)
  }

  lemma JoinedStart(src: string)
    ensures Joined(src, 0, "")
  {
    assert src[0..] == src;
    if Decoded(src).Some? { assert "" + Decoded(src).value == Decoded(src).value; }
  }

  lemma JoinedStep(src: string, i: nat, written: string, c: char, next: nat)
    requires i < next <= |src| && Joined(src, i, written)
    requires Decoded(src[i..]) == Prefixed(c, Decoded(src[next..]))
    ensures Joined(src, next, written + [c])
  {
    if Decoded(src[next..]).Some? {
      var rest := Decoded(src[next..]).value;
      assert (written + [c]) + rest == written + ([c] + rest);
    }
  }

  lemma JoinedEnd(src: string, written: string)
    requires Joined(src, |src|, written)
    ensures Decoded(src) == Some(written)
  {
    assert src[|src|..] == "" && written + "" == written;
  }

  predicate DecodeSucceeds(src: string, capacity: nat) {
    var d := Decoded(src);
    d.Some? && 0 < |d.value| < capacity && d.value[0] == '/'
  }

  /** The character at position i, an escape already replaced. */
  method DecodeStep(src: string, i: nat) returns (ok: bool, c: char, next: nat)
    requires i < |src|
    ensures ok <==> Decodable(src[i..])
    ensures ok ==> c == StepChar(src[i..]) && next == i + StepLength(src[i..]) <= |src|
  {
    c, next := src[i], i + 1;
    if c == '%' {
      if i + 2 >= |src| || HexValue(src[i + 1]) < 0 || HexValue(src[i + 2]) < 0 { return false, c, next; }
      c, next := (16 * HexValue(src[i + 1]) + HexValue(src[i + 2])) as char, i + 3;
      if c == '/' || c == '\\' { return false, c, next; }
    }
    ok := ValidPathChar(c);
  }

  method DecodePath(src: string, dst: array<char>) returns (ok: bool, length: nat)
    modifies dst
    ensures ok <==> DecodeSucceeds(src, dst.Length)
    ensures ok ==> length < dst.Length && dst[length] == '\0' && dst[..length] == Decoded(src).value
  {
    length := 0;
    if dst.Length == 0 || |src| == 0 { return false, 0; }
    var out := 0;
    var i := 0;
    JoinedStart(src);
    assert dst[..out] == "";
    while i < |src|
      invariant i <= |src| && out < dst.Length
      invariant Joined(src, i, dst[..out])
    {
      ghost var written := dst[..out];
      var fine, c, next := DecodeStep(src, i);
      if !fine { return false, 0; }
      assert src[i..][next - i..] == src[next..];
      JoinedStep(src, i, written, c, next);
      if out + 1 >= dst.Length { return false, 0; }
      dst[out] := c;
      out := out + 1;
      assert dst[..out] == written + [c];
      i := next;
    }
    JoinedEnd(src, dst[..out]);
    if out == 0 || dst[0] != '/' { return false, 0; }
    dst[out] := '\0';
    return true, out;
  }

  predicate AnyDots(segments: seq<string>) {
    exists k :: 0 <= k < |segments| && IsLiteralDots(segments[k])
  }

  function AfterSlash(path: string): string {
    if |path| > 0 && path[0] == '/' then path[1..] else path
  }

  predicate HasDotSegment(path: string) {
    AnyDots(Split(AfterSlash(path), '/'))
  }

  lemma AnyDotsStep(first: string, rest: seq<string>)
    ensures AnyDots([first] + rest) <==> IsLiteralDots(first) || AnyDots(rest)
  {
    var all := [first] + rest;
    assert all[0] == first;
    forall k | 0 <= k < |rest| && IsLiteralDots(rest[k]) ensures AnyDots(all) {
      assert all[k + 1] == rest[k];
    }
    if k :| 0 <= k < |all| && IsLiteralDots(all[k]) {
      assert k == 0 || rest[k - 1] == all[k];
    }
  }

  predicate DotsFrom(path: string, start: nat)
    requires start <= |path|
  {
    AnyDots(Split(path[start..], '/'))
  }

  lemma DotsFromStep(path: string, start: nat, slash: nat)
    requires start <= slash <= |path|
    requires forall j :: start <= j < slash ==> path[j] != '/'
    requires slash < |path| ==> path[slash] == '/'
    ensures DotsFrom(path, start)
       <==> IsLiteralDots(path[start..slash]) || (slash < |path| && DotsFrom(path, slash + 1))
  {
    var rest := path[start..];
    var piece := path[start..slash];
    assert rest[..slash - start] == piece;
    SplitStep(rest, '/', slash - start);
    if slash < |path| {
      assert rest[slash - start + 1..] == path[slash + 1..];
      AnyDotsStep(piece, Split(path[slash + 1..], '/'));
    } else {
      assert piece == rest;
      AnyDotsStep(piece, []);
      assert [piece] + [] == [piece];
    }
  }

  method CheckDotSegments(path: string) returns (found: bool)
    ensures found == HasDotSegment(path)
  {
    var segment := if |path| > 0 && path[0] == '/' then 1 else 0;
    assert path[segment..] == AfterSlash(path);
    while true
      invariant segment <= |path|
      invariant HasDotSegment(path) == DotsFrom(path, segment)
      decreases |path| - segment
    {
      var length := IndexOf(path[segment..], '/');
      DotsFromStep(path, segment, segment + length);
      if (length == 1 && path[segment] == '.') ||
         (length == 2 && path[segment] == '.' && path[segment + 1] == '.') {
        return true;
      }
      if segment + length == |path| { return false; }
      segment := segment + length + 1;
    }
  }

  // ---------------------------------------------------------------------
  // The two layers agree
  // ---------------------------------------------------------------------

  lemma UnescapeEmpty(s: string)
    ensures Unescape(s) == Some("") <==> s == ""
  {
  }

  lemma EscapedDot(s: string)
    requires StartsWithEscape(s)
    ensures EscapedCode(s) as char == '.' <==> s[1] == '2' && s[2] in {'e', 'E'}
  {
    var h, l := HexValue(s[1]), HexValue(s[2]);
    assert 16 * h + l == 0x2E <==> h == 2 && l == 14;
  }

  lemma PrefixedDots(c: char, rest: Option<string>)
    ensures Prefixed(c, rest) == Some(".") <==> c == '.' && rest == Some("")
    ensures Prefixed(c, rest) == Some("..") <==> c == '.' && rest == Some(".")
  {
    if rest.Some? {
      var s := [c] + rest.value;
      assert s[1..] == rest.value && s[0] == c;
      assert c == '.' && rest.value == "" ==> s == ".";
      assert c == '.' && rest.value == "." ==> s == "..";
      var one, two := ".", "..";
      assert one[1..] == "" && two[1..] == "." && one[0] == '.' && two[0] == '.';
    }
  }

  lemma UnescapeOneDot(s: string)
    ensures Unescape(s) == Some(".") <==> IsDot(s)
  {
    if s != [] && StepOk(s) {
      var rest := s[StepLength(s)..];
      PrefixedDots(StepChar(s), Unescape(rest));
      UnescapeEmpty(rest);
      if s[0] == '%' { EscapedDot(s); }
    }
  }

  lemma UnescapeTwoDots(s: string)
    ensures Unescape(s) == Some("..") <==> IsTwoDots(s)
  {
    if s != [] && StepOk(s) {
      var n := StepLength(s);
      PrefixedDots(StepChar(s), Unescape(s[n..]));
      UnescapeOneDot(s[n..]);
      if s[0] == '%' { EscapedDot(s); }
    }
  }

  /** The sanitizer's spellings are exactly those that decode to "." or "..". */
  lemma DotSpellings(segment: string)
    ensures SegmentError(segment).Some? <==> Unescape(segment) == Some(".") || Unescape(segment) == Some("..")
  {
    UnescapeOneDot(segment);
    UnescapeTwoDots(segment);
  }

  /** Cutting accepted text at a character that is not part of an escape. */
  lemma {:induction false} ScanCut(s: string, c: char)
    requires ScanError(s).None?
    requires c != '%' && HexValue(c) < 0
    ensures var k := IndexOf(s, c);
      ScanError(s[..k]).None? && (k < |s| ==> ScanError(s[k + 1..]).None?)
    decreases |s|
  {
    var k := IndexOf(s, c);
    if s != [] && s[0] != c {
      var step := if s[0] == '%' then 3 else 1;
      IndexOfUnique(s[step..], c, k - step);
      ScanCut(s[step..], c);
      assert s[step..][..k - step] == s[..k][step..];
      if k < |s| { assert s[step..][k - step + 1..] == s[k + 1..]; }
    }
  }

  lemma {:induction false} DecodedIsUnescaped(s: string)
    requires Decoded(s).Some?
    ensures Unescape(s) == Decoded(s)
  {
    if s != [] {
      DecodedIsUnescaped(s[StepLength(s)..]);
    }
  }

  /** Segment by segment, cooked is the decoding of raw. */
  ghost predicate DecodedPiecewise(raw: seq<string>, cooked: seq<string>) {
    |raw| == |cooked| && forall k :: 0 <= k < |raw| ==> Decoded(raw[k]) == Some(cooked[k])
  }

  lemma PiecewiseCons(first: string, decoded: string, raw: seq<string>, cooked: seq<string>)
    requires Decoded(first) == Some(decoded) && DecodedPiecewise(raw, cooked)
    ensures DecodedPiecewise([first] + raw, [decoded] + cooked)
  {
    hide Decoded;
  }

  /** The first step of s is no '/': it stays in front of the first piece. */
  lemma PiecewiseGlue(s: string)
    requires s != "" && s[0] != '/' && Decodable(s) && Decoded(s[StepLength(s)..]).Some?
    requires var tail := s[StepLength(s)..]; DecodedPiecewise(Split(tail, '/'), Split(Decoded(tail).value, '/'))
    ensures DecodedPiecewise(Split(s, '/'), Split([StepChar(s)] + Decoded(s[StepLength(s)..]).value, '/'))
  {
    hide Decoded, ValidPathChar, Split;
    var n := StepLength(s);
    var raw, cooked := Split(s[n..], '/'), Split(Decoded(s[n..]).value, '/');
    SplitGlue(s, '/', n);
    DecodedHead(s, raw[0]);
    var d := [StepChar(s)] + Decoded(s[n..]).value;
    SplitGlue(d, '/', 1);
    assert d[1..] == Decoded(s[n..]).value && d[..1] == [StepChar(s)];
    PiecewiseCons(s[..n] + raw[0], [StepChar(s)] + cooked[0], raw[1..], cooked[1..]);
  }

  /** Decoding never creates or removes a '/': the segments are decoded one by one. */
  lemma {:induction false} DecodedSegments(s: string)
    requires Decoded(s).Some?
    ensures DecodedPiecewise(Split(s, '/'), Split(Decoded(s).value, '/'))
  {
    if s != [] {
      hide DecodedPiecewise, ValidPathChar, EscapedCode;
      var n := StepLength(s);
      var tail := s[n..];
      DecodedSegments(tail);
      if s[0] != '/' {
        PiecewiseGlue(s);
      } else {
        assert (['/'] + Decoded(tail).value)[1..] == Decoded(tail).value;
        PiecewiseCons("", "", Split(tail, '/'), Split(Decoded(tail).value, '/'));
      }
    }
  }

  lemma DecodedHead(s: string, rest: string)
    requires s != [] && Decodable(s)
    ensures Decoded(s[..StepLength(s)] + rest) == Prefixed(StepChar(s), Decoded(rest))
  {
    var n := StepLength(s);
    assert (s[..n] + rest)[n..] == rest;
  }

  lemma {:induction false} SegmentsErrorExact(segments: seq<string>)
    ensures SegmentsError(segments).Some?
       <==> exists k :: 0 <= k < |segments| && SegmentError(segments[k]).Some?
  {
    if segments != [] {
      SegmentsErrorExact(segments[1..]);
      if SegmentsError(segments[1..]).Some? {
        var k :| 0 <= k < |segments| - 1 && SegmentError(segments[1..][k]).Some?;
        assert SegmentError(segments[k + 1]).Some?;
      }
      forall k | 1 <= k < |segments| && SegmentError(segments[k]).Some?
        ensures SegmentsError(segments[1..]).Some?
      {
        assert segments[1..][k - 1] == segments[k];
      }
    }
  }

  /**
   * The raw spellings the sanitizer rejects are exactly those the decoder
   * turns into a dot segment.
   */
  lemma SanitizerMatchesDecoder(tail: string)
    requires Decoded(tail).Some?
    ensures SegmentsError(Split(tail, '/')).Some? <==> HasDotSegment("/" + Decoded(tail).value)
  {
    var raw := Split(tail, '/');
    var path := "/" + Decoded(tail).value;
    assert path[1..] == Decoded(tail).value;
    var cooked := Split(path[1..], '/');
    DecodedSegments(tail);
    SegmentsErrorExact(raw);
    forall k | 0 <= k < |raw|
      ensures SegmentError(raw[k]).Some? <==> IsLiteralDots(cooked[k])
    {
      LiteralDots(cooked[k]);
      DecodedIsUnescaped(raw[k]);
      DotSpellings(raw[k]);
    }
    assert AfterSlash(path) == path[1..];
    assert HasDotSegment(path) <==> AnyDots(cooked);
    if k :| 0 <= k < |cooked| && IsLiteralDots(cooked[k]) {
      assert SegmentError(raw[k]).Some?;
    }
    if k :| 0 <= k < |raw| && SegmentError(raw[k]).Some? {
      assert IsLiteralDots(cooked[k]);
    }
  }

  lemma LiteralDots(s: string)
    ensures IsLiteralDots(s) <==> s == "." || s == ".."
  {
  }

  /**
   * An accepted origin-form target either cannot be decoded or decodes to a
   * path with the same '/' boundaries and no dot segment.
   */
  lemma AcceptedTargetDecodesSafely(target: string)
    requires TargetVerdict(target).None? && target != "*"
    requires Decoded(PathPart(target)).Some?
    ensures var path := Decoded(PathPart(target)).value;
      && path != [] && path[0] == '/'
      && DecodedPiecewise(Split(PathPart(target), '/'), Split(path, '/'))
      && !HasDotSegment(path)
  {
    var raw := PathPart(target);
    var tail := raw[1..];
    assert raw[0] == '/';
    DecodedSegments(raw);
    SanitizerMatchesDecoder(tail);
    assert Decoded(raw).value == "/" + Decoded(tail).value;
  }

  /** So no accepted-by-the-first-pass target of printable characters is refused for its query. */
  lemma QueryVerdictUnreachable(target: string)
    requires forall k :: 0 <= k < |target| ==> target[k] >= 0x20 as char && target[k] != 0x7F as char
    ensures TargetVerdict(target) !in {Some(MalformedQueryEscape), Some(UnsafeQueryEscape), Some(InvalidQueryChar)}
  {
    if ScanError(target).None? {
      ScanCut(target, '?');
      QueryPassIsRedundant(QueryPart(target));
    } else {
      ScanErrorKinds(target);
    }
    if PathPart(target) != "" { SegmentsErrorKinds(Split(PathPart(target)[1..], '/')); }
  }

  lemma ScanErrorKinds(s: string)
    ensures ScanError(s) in {None, Some(Fragment), Some(Backslash), Some(MalformedEscape), Some(UnsafeEscape)}
  {
  }

  lemma SegmentsErrorKinds(segments: seq<string>)
    ensures SegmentsError(segments) in {None, Some(DotSegment), Some(EncodedDotSegment)}
  {
  }

  /** The query pass never finds anything the first pass has let through. */
  lemma {:induction false} QueryPassIsRedundant(s: string)
    requires ScanError(s).None?
    requires forall k :: 0 <= k < |s| ==> s[k] >= 0x20 as char && s[k] != 0x7F as char
    ensures QueryError(s).None?
  {
    if s != [] {
      if s[0] == '%' { QueryPassIsRedundant(s[3..]); } else { QueryPassIsRedundant(s[1..]); }
    }
  }
}
