// When the generator refuses (tools/migrate/src/generate.c), said of the columns
// and hints alone.
module MigrateVerdict {
  import opened Text
  import opened Migrate

  /** Letters, digits and underscores, no digit first. */
  predicate Identifier(s: string) {
    && s != "" && !IsDigit(s[0])
    && forall i :: 0 <= i < |s| ==> 'a' <= Lower(s[i]) <= 'z' || IsDigit(s[i]) || s[i] == '_'
  }

  predicate Named(cols: seq<Column>, name: string) { exists c :: c in cols && c.name == name }

  /** The hint names a column the database has and the schema lacks and one the other way round, alike but for the name. */
  predicate Sensible(q: Request, h: Hint) {
    && Identifier(h.from) && Identifier(h.to) && !Named(q.expected, h.from) && !Named(q.actual, h.to)
    && exists a, e :: a in q.actual && e in q.expected && a.name == h.from && e.name == h.to && a.typ == e.typ && a.pk == e.pk
  }

  /** Every hint for this table is sensible, and no two of them rename from or to the same name. */
  predicate HintsFit(q: Request) {
    && (forall h :: h in q.hints && h.table == q.table ==> Sensible(q, h))
    && forall j, k :: 0 <= j < k < |q.hints| && q.hints[j].table == q.table && q.hints[k].table == q.table ==>
         q.hints[j].from != q.hints[k].from && q.hints[j].to != q.hints[k].to
  }

  predicate HintedFrom(q: Request, name: string) { exists h :: h in q.hints && h.table == q.table && h.from == name }
  predicate HintedTo(q: Request, name: string) { exists h :: h in q.hints && h.table == q.table && h.to == name }

  /** A key column must be added, a column must go, or a column must change its type or its key flag. */
  predicate Unbridgeable(q: Request) {
    || (exists e :: e in q.expected && e.pk && !Named(q.actual, e.name) && !HintedTo(q, e.name))
    || (exists a :: a in q.actual && !Named(q.expected, a.name) && !HintedFrom(q, a.name))
    || (exists e, a :: e in q.expected && a in q.actual && e.name == a.name && (e.typ != a.typ || e.pk != a.pk))
  }

  lemma NameIs(s: string)
    ensures PlainName(s) <==> Identifier(s)
  {
    assert forall c: char :: IdentifierChar(c) <==> 'a' <= Lower(c) <= 'z' || IsDigit(c) || c == '_';
    assert forall c: char :: IdentifierStart(c) <==> IdentifierChar(c) && !IsDigit(c);
  }

  lemma {:induction false} HasIs(cols: seq<Column>, name: string)
    ensures Has(cols, name) <==> Named(cols, name)
  {
    if cols != [] && cols[0].name != name { HasIs(cols[1..], name); }
    if cols != [] { assert cols == [cols[0]] + cols[1..]; }
  }

  lemma FindIs(cols: seq<Column>, c: Column)
    requires DistinctNames(cols) && c in cols
    ensures Find(cols, c.name) == Some(c)
  {
    var i :| 0 <= i < |cols| && cols[i] == c;
    var f := Find(cols, c.name).value;
    var j :| 0 <= j < |cols| && cols[j] == f;
    if i < j { assert cols[i].name != cols[j].name; } else if j < i { assert cols[j].name != cols[i].name; }
  }

  lemma PlausibleIs(q: Request, h: Hint)
    requires DistinctNames(q.expected) && DistinctNames(q.actual)
    ensures Plausible(q, h) <==> Sensible(q, h)
  {
    hide PlainName, Identifier, DistinctNames;
    NameIs(h.from);
    NameIs(h.to);
    HasIs(q.expected, h.from);
    HasIs(q.actual, h.to);
    if Plausible(q, h) {
      var a, e := Find(q.actual, h.from).value, Find(q.expected, h.to).value;
      assert a in q.actual && e in q.expected;
    }
    if a, e :| a in q.actual && e in q.expected && a.name == h.from && e.name == h.to && a.typ == e.typ && a.pk == e.pk {
      FindIs(q.actual, a);
      FindIs(q.expected, e);
    }
  }

  lemma HintsAre(q: Request)
    requires DistinctNames(q.expected) && DistinctNames(q.actual)
    ensures AllHintsHold(q) <==> HintsFit(q)
  {
    hide Plausible, Sensible, DistinctNames;
    forall h ensures Plausible(q, h) <==> Sensible(q, h) { PlausibleIs(q, h); }
    if AllHintsHold(q) {
      forall h | h in q.hints && h.table == q.table ensures Sensible(q, h) {
        var k :| 0 <= k < |q.hints| && q.hints[k] == h;
        assert Mine(q, k) && Valid(q, k);
      }
      forall j, k | 0 <= j < k < |q.hints| && q.hints[j].table == q.table && q.hints[k].table == q.table
        ensures q.hints[j].from != q.hints[k].from && q.hints[j].to != q.hints[k].to
      {
        assert Mine(q, k) && Valid(q, k) && !Clash(q, j, k);
      }
    }
    if HintsFit(q) {
      forall k | 0 <= k < |q.hints| && Mine(q, k) ensures Valid(q, k) {
        assert q.hints[k] in q.hints;
        forall j | 0 <= j < k ensures !Clash(q, j, k) { }
      }
    }
  }

  lemma HintedAre(q: Request, name: string)
    requires AllHintsHold(q)
    ensures RenamedFrom(q, name) <==> HintedFrom(q, name)
    ensures RenamedTo(q, name) <==> HintedTo(q, name)
  {
    hide Plausible;
    if h :| h in q.hints && h.table == q.table && h.from == name {
      var k :| 0 <= k < |q.hints| && q.hints[k] == h;
      assert Mine(q, k) && Valid(q, k);
    }
    if h :| h in q.hints && h.table == q.table && h.to == name {
      var k :| 0 <= k < |q.hints| && q.hints[k] == h;
      assert Mine(q, k) && Valid(q, k);
    }
    if k :| 0 <= k < |q.hints| && Valid(q, k) && q.hints[k].from == name { assert q.hints[k] in q.hints; }
    if k :| 0 <= k < |q.hints| && Valid(q, k) && q.hints[k].to == name { assert q.hints[k] in q.hints; }
  }

  /** A blocking difference is one of the three. */
  lemma BlockingIs(q: Request, d: Diff)
    requires DistinctNames(q.expected) && DistinctNames(q.actual) && AllHintsHold(q) && q.actual != []
    requires d in Diffs(q.expected, q.actual) && Blocking(q, d)
    ensures Unbridgeable(q)
  {
    hide AllHintsHold, RenamedFrom, RenamedTo, DistinctNames, HintedFrom, HintedTo;
    ExpectedDiffIff(q.expected, q.actual, d);
    ExtraDiffIff(q.expected, q.actual, d);
    if d.ColumnExtra? {
      HintedAre(q, d.a.name);
      HasIs(q.expected, d.a.name);
      if d in ExpectedDiffs(q.expected, q.actual) {
        var i :| 0 <= i < |q.expected| && d in ColumnDiffs(q.expected[i], q.actual);
      }
    } else {
      var i :| 0 <= i < |q.expected| && d in ColumnDiffs(q.expected[i], q.actual);
      var e := q.expected[i];
      assert e in q.expected;
      HasIs(q.actual, e.name);
      HintedAre(q, e.name);
      if Find(q.actual, e.name).Some? { assert Find(q.actual, e.name).value in q.actual; }
    }
  }

  /** And each of the three is a blocking difference. */
  lemma UnbridgeableBlocks(q: Request)
    requires DistinctNames(q.expected) && DistinctNames(q.actual) && AllHintsHold(q) && q.actual != [] && Unbridgeable(q)
    ensures AnyBlocking(q, Diffs(q.expected, q.actual))
  {
    hide AllHintsHold, RenamedFrom, RenamedTo, DistinctNames, HintedFrom, HintedTo, Diffs, AnyBlocking;
    if e :| e in q.expected && e.pk && !Named(q.actual, e.name) && !HintedTo(q, e.name) {
      HasIs(q.actual, e.name);
      HintedAre(q, e.name);
      BlockedBy(q, e, ColumnMissing(e));
    } else if a :| a in q.actual && !Named(q.expected, a.name) && !HintedFrom(q, a.name) {
      HasIs(q.expected, a.name);
      HintedAre(q, a.name);
      ExtraDiffIff(q.expected, q.actual, ColumnExtra(a));
      InDiffs(q, ColumnExtra(a));
    } else {
      var e, a :| e in q.expected && a in q.actual && e.name == a.name && (e.typ != a.typ || e.pk != a.pk);
      FindIs(q.actual, a);
      BlockedBy(q, e, TypeDiffs(e, a)[0]);
    }
  }

  lemma BlockedBy(q: Request, e: Column, d: Diff)
    requires e in q.expected && d in ColumnDiffs(e, q.actual) && Blocking(q, d) && q.actual != []
    ensures AnyBlocking(q, Diffs(q.expected, q.actual))
  {
    hide Blocking, ColumnDiffs;
    var i :| 0 <= i < |q.expected| && q.expected[i] == e;
    ExpectedDiffIff(q.expected, q.actual, d);
    InDiffs(q, d);
  }

  lemma InDiffs(q: Request, d: Diff)
    requires q.actual != [] && Blocking(q, d)
    requires d in ExpectedDiffs(q.expected, q.actual) || d in ExtraDiffs(q.expected, q.actual)
    ensures AnyBlocking(q, Diffs(q.expected, q.actual))
  {
    hide Blocking;
    var diffs := Diffs(q.expected, q.actual);
    assert d in diffs;
    var i :| 0 <= i < |diffs| && diffs[i] == d;
  }

  /**
    * The generator refuses exactly when there are too many hints, a name that is no
    * identifier, a hint for this table that is not sensible or renames what another
    * does, or a difference of an existing table that cannot be bridged.
    */
  lemma RefusedExactly(q: Request)
    requires DistinctNames(q.expected) && DistinctNames(q.actual)
    ensures Generated(q).Refused? <==>
      || |q.hints| > 32
      || !Identifier(q.table) || (exists e :: e in q.expected && !Identifier(e.name))
      || !HintsFit(q)
      || (q.actual != [] && Unbridgeable(q))
  {
    hide PlainName, Identifier, AllHintsHold, HintsFit, Unbridgeable, Diffs, DistinctNames, AnyBlocking;
    NameIs(q.table);
    forall e: Column ensures PlainName(e.name) <==> Identifier(e.name) { NameIs(e.name); }
    assert PlainNames(q) <==> Identifier(q.table) && forall e :: e in q.expected ==> Identifier(e.name);
    HintsAre(q);
    if AllHintsHold(q) {
      if q.actual == [] { NewTable(q); } else { BridgedExactly(q); }
    }
  }

  lemma NewTable(q: Request)
    requires q.actual == []
    ensures !AnyBlocking(q, Diffs(q.expected, q.actual))
  {
  }

  lemma BridgedExactly(q: Request)
    requires DistinctNames(q.expected) && DistinctNames(q.actual) && AllHintsHold(q) && q.actual != []
    ensures AnyBlocking(q, Diffs(q.expected, q.actual)) <==> Unbridgeable(q)
  {
    hide AllHintsHold, Unbridgeable, DistinctNames, Blocking, Diffs;
    if Unbridgeable(q) { UnbridgeableBlocks(q); }
    if AnyBlocking(q, Diffs(q.expected, q.actual)) {
      var diffs := Diffs(q.expected, q.actual);
      var i :| 0 <= i < |diffs| && Blocking(q, diffs[i]);
      BlockingIs(q, diffs[i]);
    }
  }
}
