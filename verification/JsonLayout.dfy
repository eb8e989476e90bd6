// What indenting adds to printed JSON: line breaks and tabs, and nothing else.
module JsonLayout {
  import opened Text
  import opened JsonText
  import opened Json

  predicate IsLayout(c: char) { c as int == 10 || c as int == 9 }

  /** The text without its line breaks and tabs. */
  function Unlaid(s: string): string {
    if s == "" then "" else (if IsLayout(s[0]) then "" else [s[0]]) + Unlaid(s[1..])
  }

  predicate OneLine(s: string) { forall i :: 0 <= i < |s| ==> !IsLayout(s[i]) }

  lemma {:induction false} UnlaidConcat(a: string, b: string)
    ensures Unlaid(a + b) == Unlaid(a) + Unlaid(b)
  {
    hide IsLayout;
    if a == "" {
      assert a + b == b;
    } else {
      UnlaidConcat(a[1..], b);
      assert (a + b)[0] == a[0] && (a + b)[1..] == a[1..] + b;
      Three(if IsLayout(a[0]) then "" else [a[0]], Unlaid(a[1..]), Unlaid(b));
    }
  }

  lemma Three(a: string, b: string, c: string)
    ensures a + (b + c) == a + b + c
  {
  }

  lemma {:induction false} OneLineStays(s: string)
    requires OneLine(s)
    ensures Unlaid(s) == s
  {
    if s != "" { OneLineStays(s[1..]); }
  }

  lemma {:induction false} TabsGo(pretty: bool, n: nat)
    ensures Unlaid(Tabs(pretty, n)) == "" && Unlaid(Newline(pretty)) == ""
  {
    if pretty && n > 0 {
      TabsGo(pretty, n - 1);
      assert Tabs(pretty, n)[1..] == Tabs(pretty, n - 1);
    }
  }

  lemma {:induction false} EscapedOneLine(s: string)
    ensures OneLine(Escape(s))
  {
    if s != "" {
      EscapedOneLine(s[1..]);
      CharOneLine(s[0]);
    }
  }

  lemma CharOneLine(c: char)
    ensures OneLine(EscapeChar(c))
  {
  }

  lemma QuotedOneLine(s: string)
    ensures OneLine(Quoted(s))
  {
    EscapedOneLine(s);
  }

  lemma DigitsOneLine(s: string)
    requires AllDigits(s)
    ensures OneLine(s)
  {
  }

  lemma IntOneLine(n: int)
    ensures OneLine(IntText(n))
  {
    var m := if n < 0 then -n else n;
    DecimalTextValue(m);
    DigitsOneLine(DecimalText(m));
  }

  /** Values whose reals are printed on one line. */
  predicate RealsOneLine(v: Json)
    decreases v, 1
  {
    match v
    case Real(token) => OneLine(token)
    case Array(items) => forall i :: 0 <= i < |items| ==> RealsOneLine(items[i])
    case Object(pairs) => forall i :: 0 <= i < |pairs| ==> RealsOneLine(pairs[i].value)
    case _ => true
  }

  /** Compact text without anything that starts or indents a line, whatever the indentation asked for. */
  function Compact(v: Json): string { Print(v, 0, false) }

  lemma {:induction false} NoTabs(n: nat)
    ensures Tabs(false, n) == "" && Newline(false) == ""
  {
  }

  lemma {:induction false} CompactItems(items: seq<Json>, indent: nat)
    ensures PrintItems(items, indent, false) == PrintItems(items, 0, false)
    decreases items, 0
  {
    if items != [] {
      NoTabs(indent + 1);
      CompactAnywhere(items[0], indent + 1);
      CompactAnywhere(items[0], 1);
      CompactItems(items[1..], indent);
    }
  }

  lemma {:induction false} CompactPairs(pairs: seq<Pair>, indent: nat, first: bool)
    ensures PrintPairs(pairs, indent, false, first) == PrintPairs(pairs, 0, false, first)
    decreases pairs, 0
  {
    if pairs != [] {
      NoTabs(indent + 1);
      CompactAnywhere(pairs[0].value, indent + 1);
      CompactAnywhere(pairs[0].value, 1);
      CompactPairs(pairs[1..], indent, false);
    }
  }

  lemma CompactAnywhere(v: Json, indent: nat)
    ensures Print(v, indent, false) == Compact(v)
    decreases v, 1
  {
    match v
    case Array(items) =>
      NoTabs(indent);
      CompactItems(items, indent);
    case Object(pairs) =>
      NoTabs(indent);
      CompactPairs(pairs, indent, true);
    case _ =>
  }

  lemma {:induction false} ItemsUnlaid(items: seq<Json>, indent: nat, pretty: bool)
    requires forall i :: 0 <= i < |items| ==> RealsOneLine(items[i])
    ensures Unlaid(PrintItems(items, indent, pretty)) == PrintItems(items, 0, false)
    decreases items, 0
  {
    hide Print, Tabs, Newline, Compact, Unlaid;
    if items == [] {
      NothingUnlaid();
    } else {
      var rest := PrintItems(items[1..], indent, pretty);
      var comma := if |items| > 1 then ", " else "";
      var v := Print(items[0], indent + 1, pretty);
      ItemsUnlaid(items[1..], indent, pretty);
      PrintUnlaid(items[0], indent + 1, pretty);
      TabsGo(pretty, indent + 1);
      TabsGo(pretty, 0);
      OneLineStays(comma);
      UnlaidFour(Tabs(pretty, indent + 1), v, comma, Newline(pretty), rest);
      NoTabs(1);
      CompactAnywhere(items[0], 1);
    }
  }

  lemma NothingUnlaid()
    ensures Unlaid("") == ""
  {
  }

  lemma UnlaidFour(a: string, b: string, c: string, d: string, e: string)
    requires Unlaid(a) == "" && Unlaid(d) == ""
    ensures Unlaid(a + (b + (c + (d + e)))) == Unlaid(b) + (Unlaid(c) + Unlaid(e))
  {
    hide Unlaid;
    UnlaidConcat(a, b + (c + (d + e)));
    UnlaidConcat(b, c + (d + e));
    UnlaidConcat(c, d + e);
    UnlaidConcat(d, e);
    assert "" + Unlaid(e) == Unlaid(e);
  }

  lemma {:induction false} PairsUnlaid(pairs: seq<Pair>, indent: nat, pretty: bool, first: bool)
    requires forall i :: 0 <= i < |pairs| ==> RealsOneLine(pairs[i].value)
    ensures Unlaid(PrintPairs(pairs, indent, pretty, first)) == PrintPairs(pairs, 0, false, first)
    decreases pairs, 0
  {
    hide Print, Tabs, Newline, Compact, Unlaid, Quoted, PairLead;
    if pairs == [] {
      NothingUnlaid();
    } else {
      var p := pairs[0];
      var rest, v := PrintPairs(pairs[1..], indent, pretty, false), Print(p.value, indent + 1, pretty);
      PairsUnlaid(pairs[1..], indent, pretty, false);
      PrintUnlaid(p.value, indent + 1, pretty);
      LeadUnlaid(indent, pretty, first);
      QuotedOneLine(p.key);
      OneLineStays(Quoted(p.key));
      OneLineStays(": ");
      CompactAnywhere(p.value, 1);
      UnlaidConcat(PairLead(indent, pretty, first), Quoted(p.key) + (": " + (v + rest)));
      UnlaidConcat(Quoted(p.key), ": " + (v + rest));
      UnlaidConcat(": ", v + rest);
      UnlaidConcat(v, rest);
    }
  }

  lemma LeadUnlaid(indent: nat, pretty: bool, first: bool)
    ensures Unlaid(PairLead(indent, pretty, first)) == PairLead(0, false, first)
  {
    hide Unlaid, Tabs, Newline;
    var comma := if first then "" else ", ";
    TabsGo(pretty, indent + 1);
    TabsGo(pretty, 0);
    NoTabs(1);
    OneLineStays(comma);
    UnlaidConcat(comma + Newline(pretty), Tabs(pretty, indent + 1));
    UnlaidConcat(comma, Newline(pretty));
    assert comma + "" + "" == comma;
  }

  lemma PrintUnlaid(v: Json, indent: nat, pretty: bool)
    requires RealsOneLine(v)
    ensures Unlaid(Print(v, indent, pretty)) == Compact(v)
    decreases v, 1
  {
    hide Unlaid, Tabs, Newline, Quoted, IntText;
    match v {
      case Array(items) =>
        var p := pretty && AnyNested(items);
        ItemsUnlaid(items, indent, p);
        TabsGo(p, indent);
        TabsGo(p, 0);
        NoTabs(0);
        Bracketed("[", Newline(p), PrintItems(items, indent, p), Tabs(p, indent), "]");
      case Object(pairs) =>
        PairsUnlaid(pairs, indent, pretty, true);
        TabsGo(pretty, indent);
        TabsGo(pretty, 0);
        NoTabs(0);
        ObjectUnlaid(PrintPairs(pairs, indent, pretty, true), Newline(pretty), Tabs(pretty, indent));
      case Int(n) => IntOneLine(n); OneLineStays(IntText(n));
      case Str(text) => QuotedOneLine(text); OneLineStays(Quoted(text));
      case Real(token) => OneLineStays(token);
      case _ => OneLineStays(Print(v, indent, pretty));
    }
  }

  lemma Bracketed(a: string, b: string, c: string, d: string, e: string)
    requires OneLine(a) && OneLine(e) && Unlaid(b) == "" && Unlaid(d) == ""
    ensures Unlaid(a + (b + (c + (d + e)))) == a + ("" + (Unlaid(c) + ("" + e)))
  {
    hide Unlaid;
    OneLineStays(a);
    OneLineStays(e);
    UnlaidConcat(a, b + (c + (d + e)));
    UnlaidConcat(b, c + (d + e));
    UnlaidConcat(c, d + e);
    UnlaidConcat(d, e);
  }

  lemma ObjectUnlaid(c: string, b: string, d: string)
    requires Unlaid(b) == "" && Unlaid(d) == ""
    ensures Unlaid("{" + (c + (b + d + "}"))) == "{" + (Unlaid(c) + ("" + "" + "}"))
  {
    hide Unlaid;
    OneLineStays("{");
    OneLineStays("}");
    UnlaidConcat("{", c + (b + d + "}"));
    UnlaidConcat(c, b + d + "}");
    UnlaidConcat(b + d, "}");
    UnlaidConcat(b, d);
    assert "" + "" + "}" == "}";
  }

  /**
    * Compact text is one line, and indented text is the compact text with line
    * breaks and tabs added between its tokens: dropping them gives it back.
    */
  lemma IndentingAddsLayoutOnly(v: Json)
    requires RealsOneLine(v)
    ensures OneLine(Compact(v))
    ensures Unlaid(Print(v, 0, true)) == Compact(v)
  {
    hide Print;
    PrintUnlaid(v, 0, true);
    UnlaidOneLine(Print(v, 0, true));
  }

  lemma {:induction false} UnlaidOneLine(s: string)
    ensures OneLine(Unlaid(s))
  {
    if s != "" { UnlaidOneLine(s[1..]); }
  }

  /** Indented, an object starts a new line, an array exactly when an item of it is a container. */
  lemma BreaksExactly(v: Json)
    requires RealsOneLine(v)
    ensures var t := Print(v, 0, true);
      && (v.Object? ==> |t| > 1 && exists i :: 0 <= i < |t| && t[i] == '\n')
      && (v.Array? ==> |t| > 1 && (t[1] == '\n' <==> exists i :: 0 <= i < |v.items| && (v.items[i].Array? || v.items[i].Object?)))
  {
    match v {
      case Object(pairs) =>
        var t, front := Print(v, 0, true), "{" + PrintPairs(pairs, 0, true, true);
        assert t == front + "\n" + "}";
        assert t[|front|] == '\n';
      case Array(items) =>
        var t := Print(v, 0, true);
        if !AnyNested(items) {
          CompactAnywhere(v, 0);
          FlatPrint(items);
          IndentingAddsLayoutOnly(v);
        }
      case _ =>
    }
  }

  lemma FlatPrint(items: seq<Json>)
    requires !AnyNested(items)
    ensures Print(Array(items), 0, true) == Compact(Array(items)) && |Compact(Array(items))| > 1
  {
  }
}
