// Parsing undoes printing, compact or indented.
module JsonRoundTrip {
  import opened Text
  import opened JsonText
  import opened Json

  // ---------------------------------------------------------------------
  // Which values
  // ---------------------------------------------------------------------

  /** No reals, C ints, NUL-free text, no repeated key. */
  predicate Storable(v: Json)
    decreases v, 1
  {
    match v
    case Null => true
    case Bool(_) => true
    case Int(n) => INT_MIN <= n <= INT_MAX
    case Real(_) => false
    case Str(text) => NulFree(text)
    case Array(items) => AllStorable(items)
    case Object(pairs) => UniqueKeys(pairs) && AllPairsStorable(pairs)
  }

  predicate AllStorable(items: seq<Json>)
    decreases items, 0
  {
    items == [] || (Storable(items[0]) && AllStorable(items[1..]))
  }

  predicate AllPairsStorable(pairs: seq<Pair>)
    decreases pairs, 0
  {
    pairs == [] || (NulFree(pairs[0].key) && Storable(pairs[0].value) && AllPairsStorable(pairs[1..]))
  }

  function Max(a: nat, b: nat): nat { if a > b then a else b }

  /** Nesting of containers. */
  function Depth(v: Json): nat
    decreases v, 1
  {
    match v
    case Array(items) => 1 + ItemsDepth(items)
    case Object(pairs) => 1 + PairsDepth(pairs)
    case _ => 0
  }

  function ItemsDepth(items: seq<Json>): nat
    decreases items, 0
  {
    if items == [] then 0 else Max(Depth(items[0]), ItemsDepth(items[1..]))
  }

  function PairsDepth(pairs: seq<Pair>): nat
    decreases pairs, 0
  {
    if pairs == [] then 0 else Max(Depth(pairs[0].value), PairsDepth(pairs[1..]))
  }

  // ---------------------------------------------------------------------
  // Blanks
  // ---------------------------------------------------------------------

  predicate Blank(s: string) { forall i :: 0 <= i < |s| ==> IsBlank(s[i]) }

  lemma {:induction false} SkipBlank(ws: string, t: string)
    requires Blank(ws)
    ensures SkipBlanks(ws + t) == SkipBlanks(t)
  {
    if ws == "" {
      assert ws + t == t;
    } else {
      SkipBlank(ws[1..], t);
      assert (ws + t)[1..] == ws[1..] + t;
    }
  }

  lemma {:induction false} TabsBlank(pretty: bool, n: nat)
    ensures Blank(Tabs(pretty, n)) && Blank(Newline(pretty)) && Blank(Newline(pretty) + Tabs(pretty, n))
  {
    if pretty && n > 0 { TabsBlank(pretty, n - 1); }
  }

  /** Text that cannot continue a number. */
  predicate Stops(rest: string) {
    rest == "" || (!IsDigit(rest[0]) && rest[0] != '.' && rest[0] != 'e' && rest[0] != 'E')
  }

  // ---------------------------------------------------------------------
  // Scalars
  // ---------------------------------------------------------------------

  lemma {:induction false} DecimalTextShape(n: nat)
    ensures var t := DecimalText(n);
      t != "" && AllDigits(t) && DecimalValue(t) == n && (n > 0 ==> t[0] != '0') && (n == 0 ==> t == "0")
  {
    DecimalTextValue(n);
    if n >= 10 { DecimalTextShape(n / 10); }
  }

  lemma {:induction false} DigitsEndAt(s: string, i: nat, e: nat)
    requires i <= e <= |s| && (forall k :: i <= k < e ==> IsDigit(s[k])) && !IsDigit(At(s, e))
    ensures DigitsEnd(s, i) == e
    decreases e - i
  {
    if i < e { DigitsEndAt(s, i + 1, e); }
  }

  /** The digits at position i, up to text that stops a number, are scanned as one integer. */
  lemma ScanDigits(s: string, i: nat, digits: string, rest: string)
    requires i <= 1 && i <= |s| && s[i..] == digits + rest && (At(s, 0) == '-' <==> i == 1)
    requires digits != "" && AllDigits(digits) && (digits[0] == '0' ==> |digits| == 1) && Stops(rest)
    ensures ScanNumber(s) == Some((i + |digits|, false))
  {
    var e := i + |digits|;
    assert forall k :: i <= k < |s| ==> s[k] == (digits + rest)[k - i];
    assert forall k :: i <= k < e ==> s[k] == digits[k - i];
    assert rest != "" ==> s[e] == rest[0];
    assert s[i] == digits[0];
    if digits[0] != '0' { DigitsEndAt(s, i, e); }
    assert IntegerEnd(s, i) == Some(e);
    assert FractionEnd(s, e) == Some(e) && ExponentEnd(s, e) == Some(e);
  }

  lemma NumberParses(n: int, rest: string)
    requires INT_MIN <= n <= INT_MAX && Stops(rest)
    ensures ParseNumber(IntText(n) + rest) == Good(Int(n), rest)
    ensures var s := IntText(n) + rest; s != "" && (IsDigit(s[0]) || (s[0] == '-' && IsDigit(At(s, 1))))
  {
    hide ScanNumber, DecimalText;
    var m := if n < 0 then -n else n;
    DecimalTextShape(m);
    var digits, s := DecimalText(m), IntText(n) + rest;
    var i := if n < 0 then 1 else 0;
    assert s[0] == if n < 0 then '-' else digits[0];
    assert n < 0 ==> s[1] == digits[0];
    assert s[i..] == digits + rest;
    assert IsDigit(digits[0]);
    ScanDigits(s, i, digits, rest);
    var t := s[..i + |digits|];
    assert t == IntText(n) && t[i..] == digits && s[i + |digits|..] == rest;
    assert At(t, 0) == '-' <==> n < 0;
  }

  lemma IntParses(n: int, depth: nat, rest: string)
    requires INT_MIN <= n <= INT_MAX && Stops(rest)
    ensures ParseValue(IntText(n) + rest, depth) == Good(Int(n), rest)
  {
    hide IntText, ParseNumber;
    NumberParses(n, rest);
    assert SkipBlanks(IntText(n) + rest) == IntText(n) + rest;
  }

  lemma WordParses(word: string, v: Json, depth: nat, rest: string)
    requires (word == "null" && v == Null) || (word == "true" && v == Bool(true)) || (word == "false" && v == Bool(false))
    ensures ParseValue(word + rest, depth) == Good(v, rest)
  {
    var s := word + rest;
    assert s[..|word|] == word && s[|word|..] == rest && SkipBlanks(s) == s;
    assert s[0] == word[0];
  }

  lemma StringParses(text: string, depth: nat, rest: string)
    requires NulFree(text)
    ensures ParseValue(Quoted(text) + rest, depth) == Good(Str(text), rest)
  {
    hide Quoted, ParseString;
    var s := Quoted(text) + rest;
    QuotedParses(text, rest);
    assert SkipBlanks(s) == s;
  }

  lemma ScalarParses(v: Json, indent: nat, pretty: bool, depth: nat, rest: string)
    requires Storable(v) && !Nested(v) && Stops(rest)
    ensures ParseValue(Print(v, indent, pretty) + rest, depth) == Good(v, rest)
  {
    hide ParseValue, Quoted, IntText;
    match v
    case Null => WordParses("null", v, depth, rest);
    case Bool(b) => WordParses(if b then "true" else "false", v, depth, rest);
    case Int(n) => IntParses(n, depth, rest);
    case Str(text) => StringParses(text, depth, rest);
  }

  /** A printed value starts with something that is neither blank nor a closing bracket. */
  lemma PrintStart(v: Json, indent: nat, pretty: bool)
    requires Storable(v)
    ensures var p := Print(v, indent, pretty); p != "" && !IsBlank(p[0]) && p[0] != ']'
  {
    if v.Int? { DecimalTextShape(if v.n < 0 then -v.n else v.n); }
  }

  // ---------------------------------------------------------------------
  // Containers
  // ---------------------------------------------------------------------

  /** After a value: blanks, then a closing bracket or a comma. */
  predicate Closes(rest: string) {
    rest != "" && (rest[0] == ',' || rest[0] == ']' || rest[0] == '}' || rest[0] == '\n' || rest[0] == '\t')
  }

  lemma BlankThen(ws: string, c: char, rest: string)
    requires Blank(ws) && c in {',', ']', '}'}
    ensures SkipBlanks(ws + ([c] + rest)) == [c] + rest && Stops(ws + ([c] + rest))
  {
    SkipBlank(ws, [c] + rest);
  }

  /** One step of the array loop over printed text. */
  lemma ItemStep(u: string, depth: nat, acc: seq<Json>, v: Json, rest: string)
    requires u != "" && ParseValue(u, depth + 1) == Good(v, rest)
    ensures var w := SkipBlanks(rest);
      (w != "" && w[0] == ']' ==> ParseItems(u, depth, acc) == Good(Array(acc + [v]), w[1..]))
      && (w != "" && w[0] == ',' ==> ParseItems(u, depth, acc) == ParseItems(SkipBlanks(w[1..]), depth, acc + [v]))
  {
    hide ParseValue;
  }

  lemma PairStep(u: string, depth: nat, acc: seq<Pair>, key: string, v: Json, rest: string)
    requires u != "" && ParsePair(u, depth) == Good(Object([Pair(key, v)]), rest)
    ensures var w := SkipBlanks(rest);
      (w != "" && w[0] == '}' ==> ParsePairs(u, depth, acc) == Good(Object(SetKey(acc, key, v)), w[1..]))
      && (w != "" && w[0] == ',' ==> ParsePairs(u, depth, acc) == ParsePairs(SkipBlanks(w[1..]), depth, SetKey(acc, key, v)))
  {
    hide ParsePair;
  }

  lemma {:induction false} SetNewKey(pairs: seq<Pair>, key: string, value: Json)
    requires forall i :: 0 <= i < |pairs| ==> pairs[i].key != key
    ensures SetKey(pairs, key, value) == pairs + [Pair(key, value)]
  {
    if pairs != [] { SetNewKey(pairs[1..], key, value); }
  }

  /** What follows item 0 in printed items, up to the end of the array. */
  function AfterItem(items: seq<Json>, indent: nat, pretty: bool, tail: string): string
    requires items != []
  {
    (if |items| > 1 then ", " else "") + (Newline(pretty) + (PrintItems(items[1..], indent, pretty) + tail))
  }

  lemma Regroup(a: string, b: string, c: string, d: string, e: string, tail: string)
    ensures (a + (b + (c + (d + e)))) + tail == a + (b + (c + (d + (e + tail))))
  {
  }

  lemma ItemsUnfold(items: seq<Json>, indent: nat, pretty: bool, tail: string)
    requires items != []
    ensures PrintItems(items, indent, pretty) + tail
         == Tabs(pretty, indent + 1) + (Print(items[0], indent + 1, pretty) + AfterItem(items, indent, pretty, tail))
  {
    hide Print, Tabs, Newline;
    Regroup(Tabs(pretty, indent + 1), Print(items[0], indent + 1, pretty), if |items| > 1 then ", " else "",
            Newline(pretty), PrintItems(items[1..], indent, pretty), tail);
  }

  lemma AfterItemShape(items: seq<Json>, indent: nat, pretty: bool, close: string, rest: string)
    requires items != [] && Blank(close)
    ensures var after := AfterItem(items, indent, pretty, close + ("]" + rest));
      Stops(after)
      && (|items| == 1 ==> SkipBlanks(after) == "]" + rest)
      && (|items| > 1 ==> SkipBlanks(after) == after && after != "" && after[0] == ',')
      && (|items| > 1 ==>
          SkipBlanks(after[1..]) == SkipBlanks(PrintItems(items[1..], indent, pretty) + (close + ("]" + rest))))
  {
    hide PrintItems;
    TabsBlank(pretty, 0);
    var tail := close + ("]" + rest);
    var after := AfterItem(items, indent, pretty, tail);
    if |items| == 1 {
      EmptyItems(indent, pretty);
      assert items[1..] == [];
      assert after == (Newline(pretty) + close) + ("]" + rest);
      BlankThen(Newline(pretty) + close, ']', rest);
    } else {
      var more := PrintItems(items[1..], indent, pretty) + tail;
      assert after == (", " + Newline(pretty)) + more;
      CommaThen(Newline(pretty), more);
    }
  }

  /** Printed items, then blanks and the closing bracket, parse to those items. */
  lemma {:induction false} ItemsParse(items: seq<Json>, indent: nat, pretty: bool, depth: nat, acc: seq<Json>,
                                      close: string, rest: string)
    requires items != [] && AllStorable(items) && depth + 1 + ItemsDepth(items) <= MAX_DEPTH && Blank(close)
    ensures ParseItems(SkipBlanks(PrintItems(items, indent, pretty) + (close + ("]" + rest))), depth, acc)
         == Good(Array(acc + items), rest)
    decreases items, 0
  {
    hide ParseItems, ParseValue, Print, PrintItems, AfterItem, Tabs, Storable, Depth;
    var tail := close + ("]" + rest);
    var p := Print(items[0], indent + 1, pretty);
    var after := AfterItem(items, indent, pretty, tail);
    ItemsUnfold(items, indent, pretty, tail);
    TabsBlank(pretty, indent + 1);
    SkipBlank(Tabs(pretty, indent + 1), p + after);
    PrintStart(items[0], indent + 1, pretty);
    assert (p + after)[0] == p[0];
    AfterItemShape(items, indent, pretty, close, rest);
    PrintParses(items[0], indent + 1, pretty, depth + 1, after);
    ItemStep(p + after, depth, acc, items[0], after);
    if |items| > 1 {
      ItemsParse(items[1..], indent, pretty, depth, acc + [items[0]], close, rest);
      assert acc + [items[0]] + items[1..] == acc + items;
    } else {
      assert items == [items[0]] && ("]" + rest)[1..] == rest;
    }
  }

  lemma ArrayParses(items: seq<Json>, indent: nat, pretty: bool, depth: nat, rest: string)
    requires AllStorable(items) && depth + 1 + ItemsDepth(items) <= MAX_DEPTH
    ensures ParseValue(Print(Array(items), indent, pretty) + rest, depth) == Good(Array(items), rest)
    decreases items, 1
  {
    hide ParseItems, PrintItems, Tabs, ItemsDepth;
    var p := pretty && AnyNested(items);
    var close := Tabs(p, indent);
    TabsBlank(p, indent);
    var inner := PrintItems(items, indent, p) + (close + ("]" + rest));
    var t := Print(Array(items), indent, pretty) + rest;
    assert t == "[" + (Newline(p) + inner);
    assert SkipBlanks(t) == t && t[1..] == Newline(p) + inner;
    SkipBlank(Newline(p), inner);
    if items == [] {
      EmptyItems(indent, p);
      assert inner == close + ("]" + rest);
      BlankThen(close, ']', rest);
    } else {
      ItemsParse(items, indent, p, depth, [], close, rest);
      ItemsStart(items, indent, p, close + ("]" + rest));
      assert [] + items == items;
    }
  }

  lemma EmptyItems(indent: nat, pretty: bool)
    ensures PrintItems([], indent, pretty) == ""
  {
  }

  lemma ItemsStart(items: seq<Json>, indent: nat, pretty: bool, tail: string)
    requires items != [] && Storable(items[0])
    ensures var u := SkipBlanks(PrintItems(items, indent, pretty) + tail); u != "" && u[0] != ']'
  {
    hide Print, PrintItems, AfterItem, Tabs, Storable;
    var p, after := Print(items[0], indent + 1, pretty), AfterItem(items, indent, pretty, tail);
    ItemsUnfold(items, indent, pretty, tail);
    TabsBlank(pretty, indent + 1);
    SkipBlank(Tabs(pretty, indent + 1), p + after);
    PrintStart(items[0], indent + 1, pretty);
    assert (p + after)[0] == p[0];
  }

  /** What follows the key of pair 0 in printed pairs, up to the end of the object. */
  function AfterKey(pairs: seq<Pair>, indent: nat, pretty: bool, tail: string): string
    requires pairs != []
  {
    ": " + (Print(pairs[0].value, indent + 1, pretty) + (PrintPairs(pairs[1..], indent, pretty, false) + tail))
  }

  lemma PairsUnfold(pairs: seq<Pair>, indent: nat, pretty: bool, first: bool, tail: string)
    requires pairs != []
    ensures PrintPairs(pairs, indent, pretty, first) + tail
         == PairLead(indent, pretty, first) + (Quoted(pairs[0].key) + AfterKey(pairs, indent, pretty, tail))
  {
    hide Print, PairLead, Quoted;
    var lead, key, p := PairLead(indent, pretty, first), Quoted(pairs[0].key), Print(pairs[0].value, indent + 1, pretty);
    var more := PrintPairs(pairs[1..], indent, pretty, false);
    assert PrintPairs(pairs, indent, pretty, first) == lead + (key + (": " + (p + more)));
    assert lead + (key + (": " + (p + more))) + tail == lead + (key + (": " + (p + (more + tail))));
  }

  /** The text after a value in an object: a comma and the next pair, or the closing brace. */
  lemma AfterPairShape(pairs: seq<Pair>, indent: nat, pretty: bool, close: string, rest: string)
    requires Blank(close)
    ensures var after := PrintPairs(pairs, indent, pretty, false) + (close + ("}" + rest));
      Stops(after)
      && (pairs == [] ==> SkipBlanks(after) == "}" + rest)
      && (pairs != [] ==> SkipBlanks(after) == after && after != "" && after[0] == ',')
      && (pairs != [] ==>
          SkipBlanks(after[1..]) == SkipBlanks(PrintPairs(pairs, indent, pretty, true) + (close + ("}" + rest))))
  {
    hide AfterKey, Quoted, PrintPairs, Tabs;
    var tail := close + ("}" + rest);
    var after := PrintPairs(pairs, indent, pretty, false) + tail;
    if pairs == [] {
      EmptyPairs(indent, pretty);
      assert after == tail;
      BlankThen(close, '}', rest);
    } else {
      PairsUnfold(pairs, indent, pretty, false, tail);
      PairsUnfold(pairs, indent, pretty, true, tail);
      var body := Quoted(pairs[0].key) + AfterKey(pairs, indent, pretty, tail);
      LeadBlank(indent, pretty);
      var ws := PairLead(indent, pretty, true);
      assert PairLead(indent, pretty, false) == ", " + ws;
      CommaThen(ws, body);
      SkipBlank(ws, body);
    }
  }

  lemma CommaThen(ws: string, body: string)
    requires Blank(ws)
    ensures var after := (", " + ws) + body;
      Stops(after) && SkipBlanks(after) == after && after != "" && after[0] == ','
      && SkipBlanks(after[1..]) == SkipBlanks(body)
  {
    var after := (", " + ws) + body;
    assert after[1..] == (" " + ws) + body;
    SkipBlank(" " + ws, body);
  }

  /** One printed "key": value pair parses to that pair. */
  lemma PairParses(pair: Pair, indent: nat, pretty: bool, depth: nat, after: string)
    requires NulFree(pair.key) && Storable(pair.value) && Stops(after)
    requires ParseValue(Print(pair.value, indent, pretty) + after, depth + 1) == Good(pair.value, after)
    ensures var u := Quoted(pair.key) + (": " + (Print(pair.value, indent, pretty) + after));
      u != "" && ParsePair(u, depth) == Good(Object([pair]), after)
  {
    hide Quoted, ParseValue, Print, ParseString;
    var p := Print(pair.value, indent, pretty) + after;
    var colon := ": " + p;
    QuotedParses(pair.key, colon);
    PrintStart(pair.value, indent, pretty);
    assert SkipBlanks(colon) == colon;
    assert colon[1..] == " " + p;
    SkipBlank(" ", p);
    assert SkipBlanks(p) == p;
  }

  /** Printed pairs, then blanks and the closing brace, parse to those pairs added to the ones before. */
  lemma {:induction false} PairsParse(pairs: seq<Pair>, indent: nat, pretty: bool, depth: nat, acc: seq<Pair>,
                                      close: string, rest: string)
    requires pairs != [] && AllPairsStorable(pairs) && depth + 1 + PairsDepth(pairs) <= MAX_DEPTH && Blank(close)
    requires UniqueKeys(acc + pairs)
    ensures ParsePairs(SkipBlanks(PrintPairs(pairs, indent, pretty, true) + (close + ("}" + rest))), depth, acc)
         == Good(Object(acc + pairs), rest)
    decreases pairs, 0
  {
    hide ParsePairs, ParsePair, ParseValue, Print, PrintPairs, PairLead, Quoted, Tabs, Storable, Depth;
    var tail := close + ("}" + rest);
    var after := PrintPairs(pairs[1..], indent, pretty, false) + tail;
    var u := Quoted(pairs[0].key) + AfterKey(pairs, indent, pretty, tail);
    PairsUnfold(pairs, indent, pretty, true, tail);
    LeadBlank(indent, pretty);
    SkipBlank(PairLead(indent, pretty, true), u);
    QuotedStart(pairs[0].key, AfterKey(pairs, indent, pretty, tail));
    AfterPairShape(pairs[1..], indent, pretty, close, rest);
    PrintParses(pairs[0].value, indent + 1, pretty, depth + 1, after);
    PairParses(pairs[0], indent + 1, pretty, depth, after);
    PairStep(u, depth, acc, pairs[0].key, pairs[0].value, after);
    forall i | 0 <= i < |acc| ensures acc[i].key != pairs[0].key {
      assert (acc + pairs)[i] == acc[i] && (acc + pairs)[|acc|] == pairs[0];
    }
    SetNewKey(acc, pairs[0].key, pairs[0].value);
    assert acc + [pairs[0]] + pairs[1..] == acc + pairs;
    if |pairs| > 1 {
      PairsParse(pairs[1..], indent, pretty, depth, acc + [pairs[0]], close, rest);
    } else {
      assert pairs == [pairs[0]] && ("}" + rest)[1..] == rest;
    }
  }

  lemma LeadBlank(indent: nat, pretty: bool)
    ensures Blank(PairLead(indent, pretty, true))
  {
    TabsBlank(pretty, indent + 1);
    assert PairLead(indent, pretty, true) == Newline(pretty) + Tabs(pretty, indent + 1);
  }

  lemma QuotedStart(key: string, rest: string)
    ensures var u := Quoted(key) + rest; u != "" && u[0] == '"' && SkipBlanks(u) == u
  {
  }

  lemma ObjectParses(pairs: seq<Pair>, indent: nat, pretty: bool, depth: nat, rest: string)
    requires AllPairsStorable(pairs) && UniqueKeys(pairs) && depth + 1 + PairsDepth(pairs) <= MAX_DEPTH
    ensures ParseValue(Print(Object(pairs), indent, pretty) + rest, depth) == Good(Object(pairs), rest)
    decreases pairs, 1
  {
    hide ParsePairs, PrintPairs, Tabs, PairsDepth;
    var close := Newline(pretty) + Tabs(pretty, indent);
    TabsBlank(pretty, indent);
    var inner := PrintPairs(pairs, indent, pretty, true) + (close + ("}" + rest));
    var t := Print(Object(pairs), indent, pretty) + rest;
    assert t == "{" + inner;
    assert SkipBlanks(t) == t && t[1..] == inner;
    if pairs == [] {
      EmptyPairs(indent, pretty);
      assert inner == close + ("}" + rest);
      BlankThen(close, '}', rest);
    } else {
      assert [] + pairs == pairs;
      PairsParse(pairs, indent, pretty, depth, [], close, rest);
      PairsStart(pairs, indent, pretty, close + ("}" + rest));
    }
  }

  lemma EmptyPairs(indent: nat, pretty: bool)
    ensures PrintPairs([], indent, pretty, true) == "" && PrintPairs([], indent, pretty, false) == ""
  {
  }

  lemma PairsStart(pairs: seq<Pair>, indent: nat, pretty: bool, tail: string)
    requires pairs != []
    ensures var u := SkipBlanks(PrintPairs(pairs, indent, pretty, true) + tail); u != "" && u[0] == '"'
  {
    hide PrintPairs, PairLead, Quoted, AfterKey;
    PairsUnfold(pairs, indent, pretty, true, tail);
    LeadBlank(indent, pretty);
    var u := Quoted(pairs[0].key) + AfterKey(pairs, indent, pretty, tail);
    SkipBlank(PairLead(indent, pretty, true), u);
    QuotedStart(pairs[0].key, AfterKey(pairs, indent, pretty, tail));
  }

  /** A printed value parses back to itself, whatever non-numeric text follows. */
  lemma {:induction false} PrintParses(v: Json, indent: nat, pretty: bool, depth: nat, rest: string)
    requires Storable(v) && depth + Depth(v) <= MAX_DEPTH && Stops(rest)
    ensures ParseValue(Print(v, indent, pretty) + rest, depth) == Good(v, rest)
    decreases v, 2
  {
    hide ParseValue, Print;
    match v
    case Array(items) => ArrayParses(items, indent, pretty, depth, rest);
    case Object(pairs) => ObjectParses(pairs, indent, pretty, depth, rest);
    case _ => ScalarParses(v, indent, pretty, depth, rest);
  }

  /** Compact or indented, what is printed parses back to the same tree with its keys in the same order. */
  lemma JsonRoundTrip(v: Json, pretty: bool)
    requires Storable(v) && Depth(v) <= MAX_DEPTH
    ensures Parse(Print(v, 0, pretty)) == Some(v)
  {
    hide ParseValue, Print;
    PrintParses(v, 0, pretty, 0, "");
    assert Print(v, 0, pretty) + "" == Print(v, 0, pretty);
  }
}
