// Any JSON document: every spelling of section 2 of RFC 8259, with blanks
// anywhere they may stand, is parsed to the value it denotes.
module JsonDocs {
  import opened Text
  import opened JsonText
  import opened JsonReal
  import opened Json
  import opened JsonRoundTrip
  import opened JsonNumbers
  import opened JsonStrings

  // ---------------------------------------------------------------------
  // Documents
  // ---------------------------------------------------------------------

  /** A value as it is spelled; inner is what stands between the brackets of an empty container. */
  datatype Doc =
    | Word(word: string)
    | Whole(negative: bool, digits: string)
    | Fractional(number: Number)
    | Literal(pieces: seq<Piece>, text: string)
    | List(items: seq<Spaced>, inner: string)
    | Members(members: seq<Member>, inner: string)

  datatype Spaced = Spaced(pre: string, doc: Doc, post: string)

  datatype Member = Member(before: string, pieces: seq<Piece>, key: string, after: string, value: Spaced)

  function LiteralText(ps: seq<Piece>): string { "\"" + PiecesText(ps) + "\"" }

  function DocText(d: Doc): string
    decreases d, 1
  {
    match d
    case Word(word) => word
    case Whole(negative, digits) => (if negative then "-" else "") + digits
    case Fractional(number) => NumberText(number)
    case Literal(ps, _) => LiteralText(ps)
    case List(items, inner) => "[" + ((if items == [] then inner else ListText(items)) + "]")
    case Members(members, inner) => "{" + ((if members == [] then inner else MembersText(members)) + "}")
  }

  function ListText(items: seq<Spaced>): string
    decreases items, 0
  {
    if items == [] then ""
    else
      items[0].pre + (DocText(items[0].doc) + (items[0].post + (if |items| > 1 then "," + ListText(items[1..]) else "")))
  }

  function MembersText(ms: seq<Member>): string
    decreases ms, 0
  {
    if ms == [] then ""
    else
      ms[0].before + (LiteralText(ms[0].pieces) + (ms[0].after + (":" + (ms[0].value.pre + (DocText(ms[0].value.doc)
        + (ms[0].value.post + (if |ms| > 1 then "," + MembersText(ms[1..]) else "")))))))
  }

  /** The value a document denotes. */
  function Denoted(d: Doc): Json
    decreases d, 1
  {
    match d
    case Word(word) => if word == "null" then Null else Bool(word == "true")
    case Whole(negative, digits) =>
      var n := if AllDigits(digits) then DecimalValue(digits) as int else 0;
      Int(if negative then -n else n)
    case Fractional(number) => Real(NumberText(number))
    case Literal(_, text) => Str(text)
    case List(items, _) => Array(ListDenoted(items))
    case Members(members, _) => Object(MembersDenoted([], members))
  }

  function ListDenoted(items: seq<Spaced>): seq<Json>
    decreases items, 0
  {
    if items == [] then [] else [Denoted(items[0].doc)] + ListDenoted(items[1..])
  }

  predicate HasKey(known: seq<Pair>, key: string) { exists i :: 0 <= i < |known| && known[i].key == key }

  /** The pair of this key has another value. */
  function Updated(known: seq<Pair>, key: string, v: Json): (r: seq<Pair>)
    ensures |r| == |known| && forall i :: 0 <= i < |r| ==> r[i] == if known[i].key == key then Pair(key, v) else known[i]
  {
    seq(|known|, i requires 0 <= i < |known| => if known[i].key == key then Pair(key, v) else known[i])
  }

  /** The members in order; a key that comes again keeps its first place and takes the later value. */
  function MembersDenoted(known: seq<Pair>, ms: seq<Member>): seq<Pair>
    decreases ms, 0
  {
    if ms == [] then known
    else
      var key, v := ms[0].key, Denoted(ms[0].value.doc);
      MembersDenoted(if HasKey(known, key) then Updated(known, key, v) else known + [Pair(key, v)], ms[1..])
  }

  ghost predicate ValidLiteral(ps: seq<Piece>, text: string) { ValidPieces(ps) && PiecesMean(ps, text) }

  ghost predicate ValidDoc(d: Doc)
    decreases d, 1
  {
    match d
    case Word(word) => word in ["null", "true", "false"]
    case Whole(negative, digits) =>
      && digits != "" && AllDigits(digits) && (digits[0] == '0' ==> |digits| == 1)
      && DecimalValue(digits) <= if negative then 0x8000_0000 else 0x7FFF_FFFF
    case Fractional(number) => ValidReal(number) && InFloatRange(Denotes(number))
    case Literal(ps, text) => ValidLiteral(ps, text)
    case List(items, inner) => Blank(inner) && ValidItems(items)
    case Members(members, inner) => Blank(inner) && ValidMembers(members)
  }

  ghost predicate ValidItems(items: seq<Spaced>)
    decreases items, 0
  {
    items == [] || (Blank(items[0].pre) && ValidDoc(items[0].doc) && Blank(items[0].post) && ValidItems(items[1..]))
  }

  ghost predicate ValidMembers(ms: seq<Member>)
    decreases ms, 0
  {
    ms == [] ||
    (Blank(ms[0].before) && ValidLiteral(ms[0].pieces, ms[0].key) && Blank(ms[0].after)
      && Blank(ms[0].value.pre) && ValidDoc(ms[0].value.doc) && Blank(ms[0].value.post) && ValidMembers(ms[1..]))
  }

  /** Nesting of containers. */
  function DocDepth(d: Doc): nat
    decreases d, 1
  {
    match d
    case List(items, _) => 1 + ListDepth(items)
    case Members(members, _) => 1 + MembersDepth(members)
    case _ => 0
  }

  function ListDepth(items: seq<Spaced>): nat
    decreases items, 0
  {
    if items == [] then 0 else Max(DocDepth(items[0].doc), ListDepth(items[1..]))
  }

  function MembersDepth(ms: seq<Member>): nat
    decreases ms, 0
  {
    if ms == [] then 0 else Max(DocDepth(ms[0].value.doc), MembersDepth(ms[1..]))
  }

  // ---------------------------------------------------------------------
  // Scalars
  // ---------------------------------------------------------------------

  lemma WholeParses(negative: bool, digits: string, rest: string)
    requires ValidDoc(Whole(negative, digits)) && Stops(rest)
    ensures ParseNumber(DocText(Whole(negative, digits)) + rest) == Good(Denoted(Whole(negative, digits)), rest)
  {
    hide ScanNumber, DecimalValue;
    var text := DocText(Whole(negative, digits));
    var s, i := text + rest, if negative then 1 else 0;
    assert IsDigit(digits[0]);
    assert s[0] == text[0] && s[i..] == digits + rest;
    ScanDigits(s, i, digits, rest);
    assert s[..i + |digits|] == text && text[i..] == digits && s[i + |digits|..] == rest;
    assert At(text, 0) == '-' <==> negative;
  }

  /** A number's first character sends the parser to the number branch. */
  lemma NumberFirst(s: string, depth: nat)
    requires s != "" && (IsDigit(s[0]) || (s[0] == '-' && IsDigit(At(s, 1))))
    ensures ParseValue(s, depth) == ParseNumber(s)
  {
    hide ParseNumber;
    assert SkipBlanks(s) == s;
  }

  lemma FractionalFirst(n: Number, rest: string)
    requires ValidReal(n)
    ensures var s := NumberText(n) + rest; s != "" && (IsDigit(s[0]) || (s[0] == '-' && IsDigit(At(s, 1))))
  {
    assert IsDigit(n.whole[0]);
    var s := NumberText(n) + rest;
    assert s[if n.negative then 1 else 0] == n.whole[0];
  }

  lemma LiteralFirst(ps: seq<Piece>, text: string, depth: nat, rest: string)
    requires ValidLiteral(ps, text)
    ensures ParseValue(LiteralText(ps) + rest, depth) == Good(Str(text), rest)
  {
    hide ParseString, PiecesText, ValidPieces, PiecesMean;
    LiteralParses(ps, text, rest);
    var s := LiteralText(ps) + rest;
    assert s[0] == '"' && SkipBlanks(s) == s;
  }

  lemma ScalarDoc(d: Doc, depth: nat, rest: string)
    requires ValidDoc(d) && !d.List? && !d.Members? && Stops(rest)
    ensures ParseValue(DocText(d) + rest, depth) == Good(Denoted(d), rest)
  {
    hide ParseValue, ParseNumber, LiteralText, NumberText, Denotes, ValidLiteral, DecimalValue;
    match d
    case Word(word) => WordParses(word, Denoted(d), depth, rest);
    case Whole(negative, digits) =>
      WholeParses(negative, digits, rest);
      var s := DocText(d) + rest;
      assert s[if negative then 1 else 0] == digits[0] && IsDigit(digits[0]);
      NumberFirst(s, depth);
    case Fractional(number) =>
      RealAcceptedExactly(number, rest);
      FractionalFirst(number, rest);
      NumberFirst(NumberText(number) + rest, depth);
    case Literal(ps, text) => LiteralFirst(ps, text, depth, rest);
  }

  /** A document starts with something that is neither blank nor a closing bracket. */
  lemma DocStart(d: Doc)
    requires ValidDoc(d)
    ensures var t := DocText(d); t != "" && !IsBlank(t[0]) && t[0] != ']' && t[0] != '}'
  {
    hide PiecesText, Denotes, DecimalValue, ListText, MembersText, ValidItems, ValidMembers;
    match d
    case Whole(negative, digits) => assert IsDigit(digits[0]);
    case Fractional(number) =>
      assert IsDigit(number.whole[0]);
      assert NumberText(number)[0] == if number.negative then '-' else number.whole[0];
    case _ =>
  }

  // ---------------------------------------------------------------------
  // Containers
  // ---------------------------------------------------------------------

  /** What follows the first of the items up to the end of the list. */
  function AfterFirst(post: string, more: string, close: string): string {
    post + ((if more == "" then "" else "," + more) + close)
  }

  lemma AfterFirstShape(post: string, more: string, c: char, rest: string)
    requires Blank(post) && c in {']', '}'}
    ensures var after := AfterFirst(post, more, [c] + rest);
      && Stops(after)
      && SkipBlanks(after) == (if more == "" then [c] + rest else "," + (more + ([c] + rest)))
  {
    if more == "" {
      assert AfterFirst(post, more, [c] + rest) == post + ([c] + rest);
      BlankThen(post, c, rest);
    } else {
      assert AfterFirst(post, more, [c] + rest) == post + ("," + (more + ([c] + rest)));
      BlankThen(post, ',', more + ([c] + rest));
    }
  }

  /** Blanks and then a document: the blanks are skipped. */
  lemma SkipToDoc(pre: string, d: Doc, after: string)
    requires Blank(pre) && ValidDoc(d)
    ensures SkipBlanks(pre + (DocText(d) + after)) == DocText(d) + after
  {
    hide DocText, ValidDoc;
    DocStart(d);
    var t := DocText(d) + after;
    assert t[0] == DocText(d)[0];
    SkipBlank(pre, t);
  }

  function RestOfList(items: seq<Spaced>): string
    requires items != []
  {
    if |items| > 1 then ListText(items[1..]) else ""
  }

  lemma RestIs(items: seq<Spaced>)
    requires items != []
    ensures RestOfList(items) == if |items| > 1 then ListText(items[1..]) else ""
  {
  }

  lemma ListUnfold(items: seq<Spaced>, close: string)
    requires items != [] && ValidItems(items)
    ensures ListText(items) + close
         == items[0].pre + (DocText(items[0].doc) + AfterFirst(items[0].post, RestOfList(items), close))
    ensures |items| > 1 ==> RestOfList(items) != ""
  {
    hide DocText, ValidDoc, ListText;
    var tail := if |items| > 1 then "," + RestOfList(items) else "";
    ListIs(items);
    Grouped(items[0].pre, DocText(items[0].doc), items[0].post, tail, close);
    if |items| > 1 { ListNotEmpty(items[1..]); }
  }

  lemma ListIs(items: seq<Spaced>)
    requires items != []
    ensures ListText(items) == items[0].pre + (DocText(items[0].doc)
      + (items[0].post + (if |items| > 1 then "," + RestOfList(items) else "")))
  {
    hide DocText;
  }

  lemma ListNotEmpty(items: seq<Spaced>)
    requires items != [] && ValidItems(items)
    ensures ListText(items) != ""
  {
    hide DocText, ValidDoc;
    DocStart(items[0].doc);
  }

  lemma Grouped(a: string, b: string, c: string, d: string, e: string)
    ensures (a + (b + (c + d))) + e == a + (b + (c + (d + e)))
  {
  }

  /** One turn of the array loop. */
  lemma ListStep(items: seq<Spaced>, depth: nat, acc: seq<Json>, rest: string)
    requires items != [] && ValidItems(items)
    requires var after := AfterFirst(items[0].post, RestOfList(items), "]" + rest);
      ParseValue(DocText(items[0].doc) + after, depth + 1) == Good(Denoted(items[0].doc), after)
    ensures var more := acc + [Denoted(items[0].doc)];
      ParseItems(SkipBlanks(ListText(items) + ("]" + rest)), depth, acc)
      == if |items| == 1 then Good(Array(more), rest)
         else ParseItems(SkipBlanks(ListText(items[1..]) + ("]" + rest)), depth, more)
  {
    hide ParseItems, ParseValue, DocText, ListText, AfterFirst, ValidDoc, Denoted, SkipBlanks, Stops, RestOfList;
    var first, more := items[0], RestOfList(items);
    RestIs(items);
    var after := AfterFirst(first.post, more, "]" + rest);
    ListUnfold(items, "]" + rest);
    SkipToDoc(first.pre, first.doc, after);
    AfterFirstShape(first.post, more, ']', rest);
    DocStart(first.doc);
    ItemStep(DocText(first.doc) + after, depth, acc, Denoted(first.doc), after);
    if |items| > 1 { assert ("," + (more + ("]" + rest)))[1..] == more + ("]" + rest); }
    else { assert ("]" + rest)[1..] == rest; }
  }

  lemma {:induction false} ListParses(items: seq<Spaced>, depth: nat, acc: seq<Json>, rest: string)
    requires items != [] && ValidItems(items) && depth + 1 + ListDepth(items) <= MAX_DEPTH
    ensures ParseItems(SkipBlanks(ListText(items) + ("]" + rest)), depth, acc) == Good(Array(acc + ListDenoted(items)), rest)
    decreases items, 0
  {
    hide ParseItems, ParseValue, DocText, ListText, AfterFirst, ValidDoc, DocDepth, Denoted, SkipBlanks, Stops, RestOfList;
    var first := items[0];
    AfterFirstShape(first.post, RestOfList(items), ']', rest);
    DocParses(first.doc, depth + 1, AfterFirst(first.post, RestOfList(items), "]" + rest));
    ListStep(items, depth, acc, rest);
    if |items| > 1 {
      ListParses(items[1..], depth, acc + [Denoted(first.doc)], rest);
      assert acc + [Denoted(first.doc)] + ListDenoted(items[1..]) == acc + ListDenoted(items);
    } else {
      assert items[1..] == [] && ListDenoted(items[1..]) == [];
      assert ListDenoted(items) == [Denoted(first.doc)];
    }
  }

  function RestOfMembers(ms: seq<Member>): string
    requires ms != []
  {
    if |ms| > 1 then MembersText(ms[1..]) else ""
  }

  /** A member from its key on. */
  function FromKey(m: Member, after: string): string {
    LiteralText(m.pieces) + (m.after + (":" + (m.value.pre + (DocText(m.value.doc) + after))))
  }

  lemma MembersUnfold(ms: seq<Member>, close: string)
    requires ms != []
    ensures MembersText(ms) + close == ms[0].before + FromKey(ms[0], AfterFirst(ms[0].value.post, RestOfMembers(ms), close))
    ensures |ms| > 1 ==> RestOfMembers(ms) != ""
  {
    hide DocText, PiecesText;
    var m := ms[0];
    var tail := if |ms| > 1 then "," + RestOfMembers(ms) else "";
    Regrouped(m.before, LiteralText(m.pieces), m.after, m.value.pre, DocText(m.value.doc), m.value.post, tail, close);
    if |ms| > 1 { assert |MembersText(ms[1..])| >= 2; }
  }

  lemma Regrouped(a: string, b: string, c: string, d: string, e: string, f: string, g: string, h: string)
    ensures (a + (b + (c + (":" + (d + (e + (f + g))))))) + h == a + (b + (c + (":" + (d + (e + (f + (g + h)))))))
  {
    var x, y := d + (e + (f + g)), d + (e + (f + (g + h)));
    assert x + h == y;
    assert (a + (b + (c + (":" + x)))) + h == a + (b + (c + (":" + (x + h))));
  }

  lemma MemberParses(m: Member, depth: nat, after: string)
    requires ValidLiteral(m.pieces, m.key) && Blank(m.after) && Blank(m.value.pre) && ValidDoc(m.value.doc)
    requires ParseValue(DocText(m.value.doc) + after, depth + 1) == Good(Denoted(m.value.doc), after)
    ensures var u := FromKey(m, after);
      && u != "" && SkipBlanks(u) == u && u[0] == '"'
      && ParsePair(u, depth) == Good(Object([Pair(m.key, Denoted(m.value.doc))]), after)
  {
    hide ParseValue, ParseString, DocText, PiecesText, ValidPieces, PiecesMean, ValidDoc, Denoted;
    var value := m.value.pre + (DocText(m.value.doc) + after);
    LiteralParses(m.pieces, m.key, m.after + (":" + value));
    var u := FromKey(m, after);
    assert u == "\"" + PiecesText(m.pieces) + "\"" + (m.after + (":" + value));
    assert u[0] == '"';
    SkipBlank(m.after, ":" + value);
    assert SkipBlanks(":" + value) == ":" + value && (":" + value)[1..] == value;
    SkipToDoc(m.value.pre, m.value.doc, after);
  }

  lemma {:induction false} SetKeyIs(known: seq<Pair>, key: string, v: Json)
    requires UniqueKeys(known)
    ensures SetKey(known, key, v) == if HasKey(known, key) then Updated(known, key, v) else known + [Pair(key, v)]
  {
    hide HasKey, UniqueKeys;
    if known == [] {
      assert !HasKey([], key) by { NoKey(key); }
    } else {
      KeysFrom(known, key);
      UpdatedFrom(known, key, v);
      if known[0].key != key {
        SetKeyIs(known[1..], key, v);
        assert [known[0]] + (known[1..] + [Pair(key, v)]) == known + [Pair(key, v)];
      }
    }
  }

  lemma NoKey(key: string)
    ensures !HasKey([], key)
  {
  }

  lemma UpdatedFrom(known: seq<Pair>, key: string, v: Json)
    requires known != [] && UniqueKeys(known)
    ensures Updated(known, key, v)
         == if known[0].key == key then [Pair(key, v)] + known[1..] else [known[0]] + Updated(known[1..], key, v)
  {
    if known[0].key == key { assert forall i :: 0 < i < |known| ==> known[i].key != key; }
  }

  lemma KeysFrom(known: seq<Pair>, key: string)
    requires known != [] && UniqueKeys(known)
    ensures UniqueKeys(known[1..]) && (HasKey(known, key) <==> known[0].key == key || HasKey(known[1..], key))
  {
    assert forall i :: 0 <= i < |known[1..]| ==> known[1..][i] == known[i + 1];
    if i :| 0 <= i < |known| && known[i].key == key && i > 0 { assert known[1..][i - 1].key == key; }
    if i :| 0 <= i < |known[1..]| && known[1..][i].key == key { assert known[i + 1].key == key; }
  }

  lemma StillUnique(known: seq<Pair>, key: string, v: Json)
    requires UniqueKeys(known)
    ensures UniqueKeys(if HasKey(known, key) then Updated(known, key, v) else known + [Pair(key, v)])
  {
  }

  lemma {:induction false} MembersParse(ms: seq<Member>, depth: nat, acc: seq<Pair>, rest: string)
    requires ms != [] && ValidMembers(ms) && depth + 1 + MembersDepth(ms) <= MAX_DEPTH && UniqueKeys(acc)
    ensures ParsePairs(SkipBlanks(MembersText(ms) + ("}" + rest)), depth, acc) == Good(Object(MembersDenoted(acc, ms)), rest)
    decreases ms, 0
  {
    hide ParsePairs, ParseValue, ParsePair, DocText, MembersText, AfterFirst, FromKey, ValidDoc, DocDepth, Denoted, ValidLiteral, SetKey, UniqueKeys;
    var m, more := ms[0], RestOfMembers(ms);
    var after := AfterFirst(m.value.post, more, "}" + rest);
    var v := Denoted(m.value.doc);
    MembersUnfold(ms, "}" + rest);
    AfterFirstShape(m.value.post, more, '}', rest);
    DocParses(m.value.doc, depth + 1, after);
    MemberParses(m, depth, after);
    SkipBlank(m.before, FromKey(m, after));
    PairStep(FromKey(m, after), depth, acc, m.key, v, after);
    SetKeyIs(acc, m.key, v);
    StillUnique(acc, m.key, v);
    if |ms| > 1 {
      assert ("," + (more + ("}" + rest)))[1..] == more + ("}" + rest);
      MembersParse(ms[1..], depth, SetKey(acc, m.key, v), rest);
    } else {
      assert ms[1..] == [] && ("}" + rest)[1..] == rest;
    }
  }

  lemma ListDoc(items: seq<Spaced>, inner: string, depth: nat, rest: string)
    requires ValidDoc(List(items, inner)) && depth + 1 + ListDepth(items) <= MAX_DEPTH
    ensures ParseValue(DocText(List(items, inner)) + rest, depth) == Good(Array(ListDenoted(items)), rest)
    decreases items, 1
  {
    hide ParseItems, ListText, ListDepth, ValidItems;
    var t := DocText(List(items, inner)) + rest;
    if items == [] {
      assert t == "[" + (inner + ("]" + rest));
      BlankThen(inner, ']', rest);
    } else {
      assert t == "[" + (ListText(items) + ("]" + rest));
      ListParses(items, depth, [], rest);
      ListFirst(items, "]" + rest);
      assert [] + ListDenoted(items) == ListDenoted(items);
    }
    assert SkipBlanks(t) == t && t[0] == '[';
  }

  lemma ListFirst(items: seq<Spaced>, close: string)
    requires items != [] && ValidItems(items)
    ensures var u := SkipBlanks(ListText(items) + close); u != "" && u[0] != ']'
  {
    hide DocText, ListText, ValidDoc, AfterFirst;
    var after := AfterFirst(items[0].post, RestOfList(items), close);
    ListUnfold(items, close);
    SkipToDoc(items[0].pre, items[0].doc, after);
    DocStart(items[0].doc);
  }

  lemma MembersDoc(ms: seq<Member>, inner: string, depth: nat, rest: string)
    requires ValidDoc(Members(ms, inner)) && depth + 1 + MembersDepth(ms) <= MAX_DEPTH
    ensures ParseValue(DocText(Members(ms, inner)) + rest, depth) == Good(Object(MembersDenoted([], ms)), rest)
    decreases ms, 1
  {
    hide ParsePairs, MembersText, MembersDepth, ValidMembers, MembersDenoted;
    var t := DocText(Members(ms, inner)) + rest;
    if ms == [] {
      assert t == "{" + (inner + ("}" + rest));
      BlankThen(inner, '}', rest);
      assert MembersDenoted([], ms) == [] by { NoMembers(); }
    } else {
      assert t == "{" + (MembersText(ms) + ("}" + rest));
      MembersParse(ms, depth, [], rest);
      MembersFirst(ms, "}" + rest);
    }
    assert SkipBlanks(t) == t && t[0] == '{';
  }

  lemma NoMembers()
    ensures MembersDenoted([], []) == []
  {
  }

  lemma MembersFirst(ms: seq<Member>, close: string)
    requires ms != [] && ValidMembers(ms)
    ensures var u := SkipBlanks(MembersText(ms) + close); u != "" && u[0] != '}'
  {
    hide DocText, MembersText, ValidDoc, AfterFirst, PiecesText;
    var u := FromKey(ms[0], AfterFirst(ms[0].value.post, RestOfMembers(ms), close));
    MembersUnfold(ms, close);
    assert u[0] == '"';
    SkipBlank(ms[0].before, u);
    assert SkipBlanks(u) == u;
  }

  lemma DocParses(d: Doc, depth: nat, rest: string)
    requires ValidDoc(d) && depth + DocDepth(d) <= MAX_DEPTH && Stops(rest)
    ensures ParseValue(DocText(d) + rest, depth) == Good(Denoted(d), rest)
    decreases d, 1
  {
    hide ParseValue, DocText;
    match d
    case List(items, inner) => ListDoc(items, inner, depth, rest);
    case Members(members, inner) => MembersDoc(members, inner, depth, rest);
    case _ => ScalarDoc(d, depth, rest);
  }

  // ---------------------------------------------------------------------
  // Nested too deep
  // ---------------------------------------------------------------------

  lemma ItemFails(u: string, depth: nat, acc: seq<Json>)
    requires u != "" && ParseValue(u, depth + 1) == Bad
    ensures ParseItems(u, depth, acc) == Bad
  {
    hide ParseValue;
  }

  lemma PairFails(m: Member, depth: nat, acc: seq<Pair>, after: string)
    requires ValidLiteral(m.pieces, m.key) && Blank(m.after) && Blank(m.value.pre) && ValidDoc(m.value.doc)
    requires ParseValue(DocText(m.value.doc) + after, depth + 1) == Bad
    ensures var u := FromKey(m, after); SkipBlanks(u) == u && ParsePairs(u, depth, acc) == Bad
  {
    hide ParseValue, ParseString, DocText, PiecesText, ValidPieces, PiecesMean, ValidDoc;
    var value := m.value.pre + (DocText(m.value.doc) + after);
    LiteralParses(m.pieces, m.key, m.after + (":" + value));
    var u := FromKey(m, after);
    assert u == "\"" + PiecesText(m.pieces) + "\"" + (m.after + (":" + value));
    assert u[0] == '"';
    SkipBlank(m.after, ":" + value);
    assert SkipBlanks(":" + value) == ":" + value && (":" + value)[1..] == value;
    SkipToDoc(m.value.pre, m.value.doc, after);
    assert ParsePair(u, depth) == Bad;
  }

  lemma {:induction false} ListTooDeep(items: seq<Spaced>, depth: nat, acc: seq<Json>, rest: string)
    requires items != [] && ValidItems(items) && depth < MAX_DEPTH < depth + 1 + ListDepth(items)
    ensures ParseItems(SkipBlanks(ListText(items) + ("]" + rest)), depth, acc) == Bad
    decreases items, 0
  {
    hide ParseItems, ParseValue, DocText, ListText, AfterFirst, ValidDoc, DocDepth, Denoted, SkipBlanks, Stops, RestOfList;
    var first := items[0];
    var after := AfterFirst(first.post, RestOfList(items), "]" + rest);
    AfterFirstShape(first.post, RestOfList(items), ']', rest);
    if depth + 1 + DocDepth(first.doc) > MAX_DEPTH {
      DocTooDeep(first.doc, depth + 1, after);
      ListUnfold(items, "]" + rest);
      SkipToDoc(first.pre, first.doc, after);
      DocStart(first.doc);
      ItemFails(DocText(first.doc) + after, depth, acc);
    } else {
      DocParses(first.doc, depth + 1, after);
      ListStep(items, depth, acc, rest);
      assert |items| > 1 by { OneItem(items); }
      ListTooDeep(items[1..], depth, acc + [Denoted(first.doc)], rest);
    }
  }

  lemma OneItem(items: seq<Spaced>)
    ensures |items| == 1 ==> ListDepth(items) == DocDepth(items[0].doc)
  {
    if |items| == 1 { assert items[1..] == []; }
  }

  lemma {:induction false} MembersTooDeep(ms: seq<Member>, depth: nat, acc: seq<Pair>, rest: string)
    requires ms != [] && ValidMembers(ms) && depth < MAX_DEPTH < depth + 1 + MembersDepth(ms) && UniqueKeys(acc)
    ensures ParsePairs(SkipBlanks(MembersText(ms) + ("}" + rest)), depth, acc) == Bad
    decreases ms, 0
  {
    hide ParsePairs, ParseValue, ParsePair, DocText, MembersText, AfterFirst, FromKey, ValidDoc, DocDepth, Denoted, ValidLiteral, SetKey, UniqueKeys;
    var m, more := ms[0], RestOfMembers(ms);
    var after := AfterFirst(m.value.post, more, "}" + rest);
    var v := Denoted(m.value.doc);
    MembersUnfold(ms, "}" + rest);
    AfterFirstShape(m.value.post, more, '}', rest);
    if depth + 1 + DocDepth(m.value.doc) > MAX_DEPTH {
      DocTooDeep(m.value.doc, depth + 1, after);
      PairFails(m, depth, acc, after);
      SkipBlank(m.before, FromKey(m, after));
    } else {
      DocParses(m.value.doc, depth + 1, after);
      MemberParses(m, depth, after);
      SkipBlank(m.before, FromKey(m, after));
      PairStep(FromKey(m, after), depth, acc, m.key, v, after);
      SetKeyIs(acc, m.key, v);
      StillUnique(acc, m.key, v);
      assert |ms| > 1 by { OneMember(ms); }
      assert ("," + (more + ("}" + rest)))[1..] == more + ("}" + rest);
      MembersTooDeep(ms[1..], depth, SetKey(acc, m.key, v), rest);
    }
  }

  lemma OneMember(ms: seq<Member>)
    ensures |ms| == 1 ==> MembersDepth(ms) == DocDepth(ms[0].value.doc)
  {
    if |ms| == 1 { assert ms[1..] == []; }
  }

  lemma DocTooDeep(d: Doc, depth: nat, rest: string)
    requires ValidDoc(d) && depth <= MAX_DEPTH < depth + DocDepth(d)
    ensures ParseValue(DocText(d) + rest, depth) == Bad
    decreases d, 1
  {
    hide ParseItems, ParsePairs, ListText, MembersText, ListDepth, MembersDepth, ValidItems, ValidMembers;
    var t := DocText(d) + rest;
    assert SkipBlanks(t) == t && t[0] == if d.List? then '[' else '{';
    match d
    case List(items, inner) =>
      if depth < MAX_DEPTH {
        assert items != [] by { NoItemsDepth(); }
        assert t == "[" + (ListText(items) + ("]" + rest));
        ListTooDeep(items, depth, [], rest);
        ListFirst(items, "]" + rest);
      }
    case Members(members, inner) =>
      if depth < MAX_DEPTH {
        assert members != [] by { NoItemsDepth(); }
        assert t == "{" + (MembersText(members) + ("}" + rest));
        MembersTooDeep(members, depth, [], rest);
        MembersFirst(members, "}" + rest);
      }
  }

  lemma NoItemsDepth()
    ensures ListDepth([]) == 0 && MembersDepth([]) == 0
  {
  }

  /** A document with blanks around it is parsed to the value it denotes, or refused when it nests more than 512 deep. */
  lemma DocumentParses(pre: string, d: Doc, post: string)
    requires Blank(pre) && ValidDoc(d) && Blank(post)
    ensures Parse(pre + (DocText(d) + post)) == if DocDepth(d) <= 512 then Some(Denoted(d)) else None
  {
    hide ParseValue, DocText, ValidDoc, DocDepth, Denoted;
    assert post == "" || IsBlank(post[0]);
    if DocDepth(d) <= 512 { DocParses(d, 0, post); } else { DocTooDeep(d, 0, post); }
    SkipToDoc(pre, d, post);
    SkipBlank(post, "");
    assert post + "" == post;
    BlanksSkipped(pre + (DocText(d) + post), 0);
    BlanksSkipped(DocText(d) + post, 0);
    DocStart(d);
  }

  /** Parsing starts after the blanks. */
  lemma BlanksSkipped(s: string, depth: nat)
    ensures ParseValue(s, depth) == ParseValue(SkipBlanks(s), depth)
  {
    hide ParseNumber, ParseString, ParseObject, ParseArray;
    var t := SkipBlanks(s);
    assert SkipBlanks(t) == t;
  }
}
