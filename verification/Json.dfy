// JSON values, how they are printed and how text is parsed
// (modules/utils/src/json.c), and the law that parsing undoes printing.
module Json {
  import opened Text
  import opened JsonText
  import opened JsonReal

  /** Real keeps the number as written. */
  datatype Json =
    | Null
    | Bool(b: bool)
    | Int(n: int)
    | Real(token: string)
    | Str(text: string)
    | Array(items: seq<Json>)
    | Object(pairs: seq<Pair>)

  datatype Pair = Pair(key: string, value: Json)

  const MAX_DEPTH: nat := 512
  const INT_MIN: int := -0x8000_0000
  const INT_MAX: int := 0x7FFF_FFFF

  // ---------------------------------------------------------------------
  // Printing
  // ---------------------------------------------------------------------

  function IntText(n: int): string {
    if n < 0 then "-" + DecimalText(-n) else DecimalText(n)
  }

  function Newline(pretty: bool): string { if pretty then "\n" else "" }

  function Tabs(pretty: bool, n: nat): string {
    if !pretty || n == 0 then "" else "\t" + Tabs(pretty, n - 1)
  }

  predicate Nested(v: Json) { v.Array? || v.Object? }

  predicate AnyNested(items: seq<Json>) { exists i :: 0 <= i < |items| && Nested(items[i]) }

  /** Compact text, or indented text at this level; a flat array is compact either way. */
  function Print(v: Json, indent: nat, pretty: bool): string
    decreases v, 1
  {
    match v
    case Null => "null"
    case Bool(b) => if b then "true" else "false"
    case Int(n) => IntText(n)
    case Real(token) => token
    case Str(text) => Quoted(text)
    case Array(items) =>
      var p := pretty && AnyNested(items);
      "[" + (Newline(p) + (PrintItems(items, indent, p) + (Tabs(p, indent) + "]")))
    case Object(pairs) =>
      "{" + (PrintPairs(pairs, indent, pretty, true) + (Newline(pretty) + Tabs(pretty, indent) + "}"))
  }

  function PrintItems(items: seq<Json>, indent: nat, pretty: bool): string
    decreases items, 0
  {
    if items == [] then ""
    else
      Tabs(pretty, indent + 1) + (Print(items[0], indent + 1, pretty)
        + ((if |items| > 1 then ", " else "") + (Newline(pretty) + PrintItems(items[1..], indent, pretty))))
  }

  function PairLead(indent: nat, pretty: bool, first: bool): string {
    (if first then "" else ", ") + Newline(pretty) + Tabs(pretty, indent + 1)
  }

  function PrintPairs(pairs: seq<Pair>, indent: nat, pretty: bool, first: bool): string
    decreases pairs, 0
  {
    if pairs == [] then ""
    else
      PairLead(indent, pretty, first) + (Quoted(pairs[0].key) + (": "
        + (Print(pairs[0].value, indent + 1, pretty) + PrintPairs(pairs[1..], indent, pretty, false))))
  }

  // ---------------------------------------------------------------------
  // Numbers
  // ---------------------------------------------------------------------

  function At(s: string, i: nat): char { if i < |s| then s[i] else '\0' }

  function DigitsEnd(s: string, i: nat): (e: nat)
    ensures e >= i && (i <= |s| ==> e <= |s|)
    decreases |s| - i
  {
    if i < |s| && IsDigit(s[i]) then DigitsEnd(s, i + 1) else i
  }

  /** End of the integer part that starts at i, or None. */
  function IntegerEnd(s: string, i: nat): Option<nat> {
    if At(s, i) == '0' then (if IsDigit(At(s, i + 1)) then None else Some(i + 1))
    else if '1' <= At(s, i) <= '9' then Some(DigitsEnd(s, i))
    else None
  }

  function FractionEnd(s: string, i: nat): Option<nat> {
    if At(s, i) != '.' then Some(i)
    else if !IsDigit(At(s, i + 1)) then None
    else Some(DigitsEnd(s, i + 1))
  }

  function ExponentEnd(s: string, i: nat): Option<nat> {
    if At(s, i) != 'e' && At(s, i) != 'E' then Some(i)
    else
      var d := if At(s, i + 1) == '+' || At(s, i + 1) == '-' then i + 2 else i + 1;
      if !IsDigit(At(s, d)) then None else Some(DigitsEnd(s, d))
  }

  /** Length of the number token at the start of s and whether it is a real. */
  function ScanNumber(s: string): (r: Option<(nat, bool)>)
    ensures r.Some? ==> 1 <= r.value.0 <= |s|
    ensures r.Some? && !r.value.1 ==> IntegerToken(s[..r.value.0])
  {
    var i := if At(s, 0) == '-' then 1 else 0;
    match IntegerEnd(s, i)
    case None => None
    case Some(e) =>
      IntegerEndToken(s, i, e);
      match FractionEnd(s, e)
      case None => None
      case Some(f) =>
        match ExponentEnd(s, f)
        case None => None
        case Some(x) => Some((x, x != e))
  }

  predicate IntegerToken(t: string) {
    var digits := if At(t, 0) == '-' then t[1..] else t;
    digits != "" && AllDigits(digits)
  }

  lemma {:induction false} DigitsEndDigits(s: string, i: nat)
    requires i <= |s|
    ensures forall k :: i <= k < DigitsEnd(s, i) ==> IsDigit(s[k])
    decreases |s| - i
  {
    if i < |s| && IsDigit(s[i]) { DigitsEndDigits(s, i + 1); }
  }

  lemma IntegerEndToken(s: string, i: nat, e: nat)
    requires i == (if At(s, 0) == '-' then 1 else 0) && IntegerEnd(s, i) == Some(e)
    ensures i < e <= |s| && IntegerToken(s[..e])
  {
    DigitsEndDigits(s, i);
    var t := s[..e];
    var digits := if At(t, 0) == '-' then t[1..] else t;
    assert digits == s[i..e];
  }

  function IntegerOf(t: string): int
    requires IntegerToken(t)
  {
    if At(t, 0) == '-' then -(DecimalValue(t[1..]) as int) else DecimalValue(t)
  }

  // ---------------------------------------------------------------------
  // Parsing
  // ---------------------------------------------------------------------

  datatype Parsed = Bad | Good(value: Json, rest: string)

  predicate IsBlank(c: char) { c == ' ' || c == '\t' || c == '\n' || c == '\r' }

  function SkipBlanks(s: string): (r: string)
    ensures |r| <= |s| && (r != "" ==> !IsBlank(r[0]))
  {
    if s != "" && IsBlank(s[0]) then SkipBlanks(s[1..]) else s
  }

  predicate StartsWith(s: string, prefix: string) { |s| >= |prefix| && s[..|prefix|] == prefix }

  function Literal(s: string, word: string, value: Json): (r: Parsed)
    requires word != ""
    ensures r.Good? ==> |r.rest| < |s|
  {
    if StartsWith(s, word) then Good(value, s[|word|..]) else Bad
  }

  function ParseNumber(s: string): (r: Parsed)
    ensures r.Good? ==> |r.rest| < |s|
  {
    match ScanNumber(s)
    case None => Bad
    case Some((n, isReal)) =>
      if isReal then (if FitsFloat(s[..n]) then Good(Real(s[..n]), s[n..]) else Bad)
      else
        var value := IntegerOf(s[..n]);
        if INT_MIN <= value <= INT_MAX then Good(Int(value), s[n..]) else Bad
  }

  /** A value after optional blanks. */
  function ParseValue(s: string, depth: nat): (r: Parsed)
    ensures r.Good? ==> |r.rest| < |s|
    decreases |s|, 1
  {
    var t := SkipBlanks(s);
    if t == "" then Bad
    else if t[0] == '{' then ParseObject(t, depth)
    else if t[0] == '[' then ParseArray(t, depth)
    else if t[0] == 'n' then Literal(t, "null", Null)
    else if t[0] == 't' then Literal(t, "true", Bool(true))
    else if t[0] == 'f' then Literal(t, "false", Bool(false))
    else if t[0] == '"' then
      (match ParseString(t)
       case None => Bad
       case Some((text, rest)) => Good(Str(text), rest))
    else if IsDigit(t[0]) || (t[0] == '-' && IsDigit(At(t, 1))) then ParseNumber(t)
    else Bad
  }

  function ParseArray(t: string, depth: nat): (r: Parsed)
    requires t != "" && t[0] == '['
    ensures r.Good? ==> |r.rest| < |t|
    decreases |t|, 0
  {
    if depth >= MAX_DEPTH then Bad
    else
      var u := SkipBlanks(t[1..]);
      if u != "" && u[0] == ']' then Good(Array([]), u[1..]) else ParseItems(u, depth, [])
  }

  function ParseItems(u: string, depth: nat, items: seq<Json>): (r: Parsed)
    ensures r.Good? ==> |r.rest| < |u|
    decreases |u|, 2
  {
    if u == "" then Bad
    else
      match ParseValue(u, depth + 1)
      case Bad => Bad
      case Good(v, rest) =>
        var w := SkipBlanks(rest);
        if w == "" then Bad
        else if w[0] == ']' then Good(Array(items + [v]), w[1..])
        else if w[0] != ',' then Bad
        else ParseItems(SkipBlanks(w[1..]), depth, items + [v])
  }

  function ParseObject(t: string, depth: nat): (r: Parsed)
    requires t != "" && t[0] == '{'
    ensures r.Good? ==> |r.rest| < |t|
    decreases |t|, 0
  {
    if depth >= MAX_DEPTH then Bad
    else
      var u := SkipBlanks(t[1..]);
      if u != "" && u[0] == '}' then Good(Object([]), u[1..]) else ParsePairs(u, depth, [])
  }

  /** The text of one "key": value pair; the pair itself is in the value's place as a one-pair object. */
  function ParsePair(u: string, depth: nat): (r: Parsed)
    ensures r.Good? ==> |r.rest| < |u| && r.value.Object? && |r.value.pairs| == 1
    decreases |u|, 2
  {
    if u == "" || u[0] != '"' then Bad
    else
      match ParseString(u)
      case None => Bad
      case Some((key, rest)) =>
        var colon := SkipBlanks(rest);
        if colon == "" || colon[0] != ':' then Bad
        else
          match ParseValue(SkipBlanks(colon[1..]), depth + 1)
          case Bad => Bad
          case Good(v, more) => Good(Object([Pair(key, v)]), more)
  }

  function ParsePairs(u: string, depth: nat, pairs: seq<Pair>): (r: Parsed)
    ensures r.Good? ==> |r.rest| < |u|
    decreases |u|, 3
  {
    if u == "" then Bad
    else
      match ParsePair(u, depth)
      case Bad => Bad
      case Good(one, rest) =>
        var all := SetKey(pairs, one.pairs[0].key, one.pairs[0].value);
        var w := SkipBlanks(rest);
        if w == "" then Bad
        else if w[0] == '}' then Good(Object(all), w[1..])
        else if w[0] != ',' then Bad
        else ParsePairs(SkipBlanks(w[1..]), depth, all)
  }

  /** Insertion-ordered assignment: a known key keeps its place. */
  function SetKey(pairs: seq<Pair>, key: string, value: Json): seq<Pair> {
    if pairs == [] then [Pair(key, value)]
    else if pairs[0].key == key then [Pair(key, value)] + pairs[1..]
    else [pairs[0]] + SetKey(pairs[1..], key, value)
  }

  function Parse(s: string): Option<Json> {
    match ParseValue(s, 0)
    case Bad => None
    case Good(v, rest) => if SkipBlanks(rest) == "" then Some(v) else None
  }

  predicate UniqueKeys(pairs: seq<Pair>) {
    forall i, j :: 0 <= i < j < |pairs| ==> pairs[i].key != pairs[j].key
  }
}
