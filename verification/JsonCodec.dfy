// The JSON serializer and parser as they run (modules/utils/src/json.c): a
// sizing pass and a writing pass over one buffer, and index-driven parsing.
module JsonCodec {
  import opened Text
  import opened JsonText
  import opened Json

  // ---------------------------------------------------------------------
  // Sizing pass
  // ---------------------------------------------------------------------

  method EscapedSize(s: string) returns (size: nat)
    ensures size == |Escape(s)|
  {
    size := 0;
    var i := 0;
    assert s[0..] == s;
    while i < |s|
      invariant i <= |s| && size + |Escape(s[i..])| == |Escape(s)|
    {
      assert s[i..][1..] == s[i + 1..];
      size := size + (if ShortEscape(s[i]) != '\0' then 2 else if s[i] < 0x20 as char then 6 else 1);
      i := i + 1;
    }
  }

  method TabsSize(pretty: bool, n: nat) returns (size: nat)
    ensures size == |Tabs(pretty, n)|
  {
    size := 0;
    var j := n;
    while pretty && j > 0
      invariant 0 <= j <= n && size + |Tabs(pretty, j)| == |Tabs(pretty, n)|
      decreases j
    {
      size := size + 1;
      j := j - 1;
    }
  }

  method Measure(v: Json, indent: nat, pretty: bool) returns (size: nat)
    ensures size == |Print(v, indent, pretty)|
    decreases v, 1
  {
    match v {
      case Null => size := 4;
      case Bool(b) => size := if b then 4 else 5;
      case Int(n) => size := |IntText(n)|;
      case Real(token) => size := |token|;
      case Str(text) =>
        size := EscapedSize(text);
        size := size + 2;
      case Array(items) =>
        var p := pretty && AnyNested(items);
        size := MeasureItems(items, indent, p);
        var tabs := TabsSize(p, indent);
        size := 1 + (if p then 1 else 0) + size + tabs + 1;
      case Object(pairs) =>
        size := MeasurePairs(pairs, indent, pretty);
        var tabs := TabsSize(pretty, indent);
        size := 1 + size + (if pretty then 1 else 0) + tabs + 1;
    }
  }

  method MeasureItems(items: seq<Json>, indent: nat, pretty: bool) returns (size: nat)
    ensures size == |PrintItems(items, indent, pretty)|
    decreases items, 0
  {
    size := 0;
    var tabs := TabsSize(pretty, indent + 1);
    var i := 0;
    assert items[0..] == items;
    while i < |items|
      invariant i <= |items|
      invariant size + |PrintItems(items[i..], indent, pretty)| == |PrintItems(items, indent, pretty)|
    {
      assert items[i..][1..] == items[i + 1..] && items[i..][0] == items[i];
      var child := Measure(items[i], indent + 1, pretty);
      size := size + tabs + child + (if i + 1 < |items| then 2 else 0) + (if pretty then 1 else 0);
      i := i + 1;
    }
  }

  method MeasurePairs(pairs: seq<Pair>, indent: nat, pretty: bool) returns (size: nat)
    ensures size == |PrintPairs(pairs, indent, pretty, true)|
    decreases pairs, 0
  {
    size := 0;
    var tabs := TabsSize(pretty, indent + 1);
    var i := 0;
    assert pairs[0..] == pairs;
    while i < |pairs|
      invariant i <= |pairs|
      invariant size + |PrintPairs(pairs[i..], indent, pretty, i == 0)| == |PrintPairs(pairs, indent, pretty, true)|
    {
      assert pairs[i..][1..] == pairs[i + 1..] && pairs[i..][0] == pairs[i];
      var key := EscapedSize(pairs[i].key);
      var child := Measure(pairs[i].value, indent + 1, pretty);
      size := size + (if i > 0 then 2 else 0) + (if pretty then 1 else 0) + tabs + (key + 4) + child;
      i := i + 1;
    }
  }

  // ---------------------------------------------------------------------
  // Writing pass
  // ---------------------------------------------------------------------

  method WriteEscaped(buffer: array<char>, at: nat, s: string) returns (q: nat)
    requires at + |Escape(s)| <= buffer.Length
    modifies buffer
    ensures q == at + |Escape(s)| && buffer[..q] == old(buffer[..at]) + Escape(s)
  {
    hide EscapeChar;
    q := at;
    var i := 0;
    assert s[0..] == s;
    while i < |s|
      invariant i <= |s| && at <= q && q + |Escape(s[i..])| == at + |Escape(s)|
      invariant buffer[..q] + Escape(s[i..]) == old(buffer[..at]) + Escape(s)
    {
      ghost var was := buffer[..q];
      assert s[i..][1..] == s[i + 1..];
      q := Write(buffer, q, EscapeChar(s[i]));
      assert was + Escape(s[i..]) == buffer[..q] + Escape(s[i + 1..]);
      i := i + 1;
    }
    assert buffer[..q] + "" == buffer[..q];
  }

  method WriteQuoted(buffer: array<char>, at: nat, s: string) returns (q: nat)
    requires at + |Quoted(s)| <= buffer.Length
    modifies buffer
    ensures q == at + |Quoted(s)| && buffer[..q] == old(buffer[..at]) + Quoted(s)
  {
    q := Write(buffer, at, "\"");
    q := WriteEscaped(buffer, q, s);
    q := Write(buffer, q, "\"");
  }

  method WriteTabs(buffer: array<char>, at: nat, pretty: bool, n: nat) returns (q: nat)
    requires at + |Tabs(pretty, n)| <= buffer.Length
    modifies buffer
    ensures q == at + |Tabs(pretty, n)| && buffer[..q] == old(buffer[..at]) + Tabs(pretty, n)
  {
    q := at;
    var j := n;
    while pretty && j > 0
      invariant 0 <= j <= n && q + |Tabs(pretty, j)| == at + |Tabs(pretty, n)|
      invariant buffer[..q] + Tabs(pretty, j) == old(buffer[..at]) + Tabs(pretty, n)
      decreases j
    {
      ghost var was := buffer[..q];
      q := Write(buffer, q, "\t");
      assert was + Tabs(pretty, j) == buffer[..q] + Tabs(pretty, j - 1);
      j := j - 1;
    }
    assert buffer[..q] + "" == buffer[..q];
  }

  method WriteValue(buffer: array<char>, at: nat, v: Json, indent: nat, pretty: bool) returns (q: nat)
    requires at + |Print(v, indent, pretty)| <= buffer.Length
    modifies buffer
    ensures q == at + |Print(v, indent, pretty)|
    ensures buffer[..q] == old(buffer[..at]) + Print(v, indent, pretty)
    decreases v, 2
  {
    hide Quoted, IntText;
    match v {
      case Null => q := Write(buffer, at, "null");
      case Bool(b) => q := Write(buffer, at, if b then "true" else "false");
      case Int(n) => q := Write(buffer, at, IntText(n));
      case Real(token) => q := Write(buffer, at, token);
      case Str(text) => q := WriteQuoted(buffer, at, text);
      case Array(items) => q := WriteArray(buffer, at, items, indent, pretty && AnyNested(items));
      case Object(pairs) => q := WriteObject(buffer, at, pairs, indent, pretty);
    }
  }

  function ArrayText(items: seq<Json>, indent: nat, pretty: bool): string {
    "[" + (Newline(pretty) + (PrintItems(items, indent, pretty) + (Tabs(pretty, indent) + "]")))
  }

  function ObjectText(pairs: seq<Pair>, indent: nat, pretty: bool): string {
    "{" + (PrintPairs(pairs, indent, pretty, true) + (Newline(pretty) + Tabs(pretty, indent) + "}"))
  }

  method WriteArray(buffer: array<char>, at: nat, items: seq<Json>, indent: nat, pretty: bool) returns (q: nat)
    requires at + |ArrayText(items, indent, pretty)| <= buffer.Length
    modifies buffer
    ensures q == at + |ArrayText(items, indent, pretty)|
    ensures buffer[..q] == old(buffer[..at]) + ArrayText(items, indent, pretty)
    decreases items, 1
  {
    hide PrintItems, Tabs;
    q := Write(buffer, at, "[");
    q := Write(buffer, q, Newline(pretty));
    q := WriteItems(buffer, q, items, indent, pretty);
    q := WriteTabs(buffer, q, pretty, indent);
    q := Write(buffer, q, "]");
  }

  method WriteItems(buffer: array<char>, at: nat, items: seq<Json>, indent: nat, pretty: bool) returns (q: nat)
    requires at + |PrintItems(items, indent, pretty)| <= buffer.Length
    modifies buffer
    ensures q == at + |PrintItems(items, indent, pretty)|
    ensures buffer[..q] == old(buffer[..at]) + PrintItems(items, indent, pretty)
    decreases items, 0
  {
    hide Print, Tabs, Newline;
    q := at;
    var i := 0;
    assert items[0..] == items;
    while i < |items|
      invariant i <= |items| && at <= q
      invariant q + |PrintItems(items[i..], indent, pretty)| == at + |PrintItems(items, indent, pretty)|
      invariant buffer[..q] + PrintItems(items[i..], indent, pretty) == old(buffer[..at]) + PrintItems(items, indent, pretty)
    {
      ItemShape(items[i..], indent, pretty);
      ghost var was := buffer[..q];
      assert items[i..][1..] == items[i + 1..] && items[i..][0] == items[i];
      q := WriteItem(buffer, q, items[i], indent, pretty, i + 1 < |items|);
      ghost var text := ItemText(items[i], indent, pretty, i + 1 < |items|);
      assert was + (text + PrintItems(items[i + 1..], indent, pretty))
          == buffer[..q] + PrintItems(items[i + 1..], indent, pretty);
      i := i + 1;
    }
    assert PrintItems(items[i..], indent, pretty) == "";
    assert buffer[..q] + "" == buffer[..q];
  }

  /** The text of one array element with its indentation and separator. */
  function ItemText(v: Json, indent: nat, pretty: bool, more: bool): string {
    Tabs(pretty, indent + 1) + Print(v, indent + 1, pretty) + (if more then ", " else "") + Newline(pretty)
  }

  lemma ItemShape(items: seq<Json>, indent: nat, pretty: bool)
    requires items != []
    ensures PrintItems(items, indent, pretty)
         == ItemText(items[0], indent, pretty, |items| > 1) + PrintItems(items[1..], indent, pretty)
  {
    hide Print, Tabs, Newline;
  }

  method WriteItem(buffer: array<char>, at: nat, v: Json, indent: nat, pretty: bool, more: bool) returns (q: nat)
    requires at + |ItemText(v, indent, pretty, more)| <= buffer.Length
    modifies buffer
    ensures q == at + |ItemText(v, indent, pretty, more)|
    ensures buffer[..q] == old(buffer[..at]) + ItemText(v, indent, pretty, more)
    decreases v, 3
  {
    hide Print, Tabs;
    q := WriteTabs(buffer, at, pretty, indent + 1);
    q := WriteValue(buffer, q, v, indent + 1, pretty);
    q := Write(buffer, q, if more then ", " else "");
    q := Write(buffer, q, Newline(pretty));
  }

  method WriteObject(buffer: array<char>, at: nat, pairs: seq<Pair>, indent: nat, pretty: bool) returns (q: nat)
    requires at + |ObjectText(pairs, indent, pretty)| <= buffer.Length
    modifies buffer
    ensures q == at + |ObjectText(pairs, indent, pretty)|
    ensures buffer[..q] == old(buffer[..at]) + ObjectText(pairs, indent, pretty)
    decreases pairs, 1
  {
    hide PrintPairs, Tabs;
    q := Write(buffer, at, "{");
    q := WritePairs(buffer, q, pairs, indent, pretty);
    q := Write(buffer, q, Newline(pretty));
    q := WriteTabs(buffer, q, pretty, indent);
    q := Write(buffer, q, "}");
  }

  method WritePairs(buffer: array<char>, at: nat, pairs: seq<Pair>, indent: nat, pretty: bool) returns (q: nat)
    requires at + |PrintPairs(pairs, indent, pretty, true)| <= buffer.Length
    modifies buffer
    ensures q == at + |PrintPairs(pairs, indent, pretty, true)|
    ensures buffer[..q] == old(buffer[..at]) + PrintPairs(pairs, indent, pretty, true)
    decreases pairs, 0
  {
    hide Print, PairLead, Quoted;
    q := at;
    var i := 0;
    assert pairs[0..] == pairs;
    while i < |pairs|
      invariant i <= |pairs| && at <= q
      invariant q + |PrintPairs(pairs[i..], indent, pretty, i == 0)| == at + |PrintPairs(pairs, indent, pretty, true)|
      invariant buffer[..q] + PrintPairs(pairs[i..], indent, pretty, i == 0)
             == old(buffer[..at]) + PrintPairs(pairs, indent, pretty, true)
    {
      PairShape(pairs[i..], indent, pretty, i == 0);
      ghost var was := buffer[..q];
      assert pairs[i..][1..] == pairs[i + 1..] && pairs[i..][0] == pairs[i];
      q := WritePair(buffer, q, pairs[i], indent, pretty, i == 0);
      ghost var text := PairText(pairs[i], indent, pretty, i == 0);
      assert was + (text + PrintPairs(pairs[i + 1..], indent, pretty, false))
          == buffer[..q] + PrintPairs(pairs[i + 1..], indent, pretty, false);
      i := i + 1;
    }
    assert PrintPairs(pairs[i..], indent, pretty, i == 0) == "";
    assert buffer[..q] + "" == buffer[..q];
  }

  function PairText(pair: Pair, indent: nat, pretty: bool, first: bool): string {
    PairLead(indent, pretty, first) + Quoted(pair.key) + ": " + Print(pair.value, indent + 1, pretty)
  }

  lemma PairShape(pairs: seq<Pair>, indent: nat, pretty: bool, first: bool)
    requires pairs != []
    ensures PrintPairs(pairs, indent, pretty, first)
         == PairText(pairs[0], indent, pretty, first) + PrintPairs(pairs[1..], indent, pretty, false)
  {
    hide Print, PairLead, Quoted;
  }

  method WriteLead(buffer: array<char>, at: nat, indent: nat, pretty: bool, first: bool) returns (q: nat)
    requires at + |PairLead(indent, pretty, first)| <= buffer.Length
    modifies buffer
    ensures q == at + |PairLead(indent, pretty, first)|
    ensures buffer[..q] == old(buffer[..at]) + PairLead(indent, pretty, first)
  {
    hide Tabs;
    q := Write(buffer, at, if first then "" else ", ");
    q := Write(buffer, q, Newline(pretty));
    q := WriteTabs(buffer, q, pretty, indent + 1);
  }

  method WritePair(buffer: array<char>, at: nat, pair: Pair, indent: nat, pretty: bool, first: bool) returns (q: nat)
    requires at + |PairText(pair, indent, pretty, first)| <= buffer.Length
    modifies buffer
    ensures q == at + |PairText(pair, indent, pretty, first)|
    ensures buffer[..q] == old(buffer[..at]) + PairText(pair, indent, pretty, first)
    decreases pair.value, 3
  {
    hide Print, PairLead, Quoted;
    q := WriteLead(buffer, at, indent, pretty, first);
    q := WriteQuoted(buffer, q, pair.key);
    q := Write(buffer, q, ": ");
    q := WriteValue(buffer, q, pair.value, indent + 1, pretty);
  }

  /** Sizes, allocates exactly that much and a terminator, and writes: the two passes agree. */
  method Serialize(v: Json, pretty: bool) returns (buffer: array<char>, size: nat)
    ensures fresh(buffer) && buffer.Length == size + 1 && buffer[size] == '\0'
    ensures buffer[..size] == Print(v, 0, pretty)
  {
    hide Print;
    size := Measure(v, 0, pretty);
    buffer := new char[size + 1];
    var written := WriteValue(buffer, 0, v, 0, pretty);
    assert written == size;
    ghost var text := buffer[..size];
    assert text == Print(v, 0, pretty);
    buffer[size] := '\0';
    assert buffer[..size] == text;
  }
}
