// Queries pushed down to SQL (modules/persist/src/model/model_sqlite.c and
// model_postgres.c): the statement each backend renders and the values it
// binds mean what the in-memory evaluator means.
module Pushdown {
  import opened Text
  import opened Like
  import opened Query
  import opened Sql

  const LONG_TO_INT: int := 0x1_0000_0000
  const INT_MAX: int := 0x7FFF_FFFF

  // ---------------------------------------------------------------------
  // SQL statements
  // ---------------------------------------------------------------------

  datatype Dialect = Sqlite | Postgres

  /** One conjunct of WHERE: a constant false, or field, operator and parameter number. */
  datatype Term = Never | Test(field: string, op: Op, param: nat)

  datatype Bound = Absent | Constant(n: int) | Param(param: nat)

  datatype Select = Select(where: seq<Term>, order: seq<Key>, limit: Bound, offset: Bound)

  /** Whatever op LIKE is written as in the dialect: GLOB or LIKE. */
  predicate TestHolds(d: Dialect, op: Op, v: Value, bound: Value) {
    if op == LIKE then
      v.Bytes? && bound.Bytes? && if d == Sqlite then Globs(v.b, bound.b) else PgLikes(v.b, bound.b)
    else Compares(op, v, bound)
  }

  /** An unbound parameter is NULL, and nothing compares with NULL. */
  predicate TermHolds(d: Dialect, t: Term, params: seq<Value>, row: Row) {
    t.Test? && t.field in row && t.param < |params| && TestHolds(d, t.op, row[t.field], params[t.param])
  }

  predicate WhereHolds(d: Dialect, where: seq<Term>, params: seq<Value>, row: Row) {
    forall i :: 0 <= i < |where| ==> TermHolds(d, where[i], params, row)
  }

  /** A negative limit is no limit; None is an error. */
  function BoundValue(b: Bound, params: seq<Value>): Option<int> {
    match b
    case Absent => Some(-1)
    case Constant(n) => Some(n)
    case Param(k) => if k < |params| && params[k].IntV? then Some(params[k].n) else None
  }

  function Where(d: Dialect, sql: Select, params: seq<Value>): Row -> bool {
    row => WhereHolds(d, sql.where, params, row)
  }

  /** SQLite has no OFFSET without a LIMIT. */
  predicate Grammatical(d: Dialect, sql: Select) { d == Sqlite && sql.offset != Absent ==> sql.limit != Absent }

  /** out is an answer to the statement: a page of the rows that pass WHERE, in some order ORDER BY allows. */
  ghost predicate SqlAnswer(d: Dialect, sql: Select, params: seq<Value>, rows: seq<Row>, out: seq<Row>) {
    Grammatical(d, sql) && exists s ::
      && InOrder(sql.order, s) && Passing(s, Where(d, sql, params), rows)
      && BoundValue(sql.limit, params).Some? && BoundValue(sql.offset, params).Some?
      && IsPage(out, s, BoundValue(sql.limit, params).value, BoundValue(sql.offset, params).value)
  }

  /** The same, in the terms of the in-memory evaluator. */
  lemma SqlAnswerMeans(d: Dialect, sql: Select, params: seq<Value>, rows: seq<Row>, out: seq<Row>, limit: int, offset: int)
    requires BoundValue(sql.limit, params) == Some(limit) && BoundValue(sql.offset, params) == Some(offset)
    requires Grammatical(d, sql)
    ensures SqlAnswer(d, sql, params, rows, out) <==>
      exists s :: Sorted(sql.order, s) && SameRows(s, Filter(Where(d, sql, params), rows)) && out == Page(s, limit, offset)
  {
    hide InOrder, Passing, IsPage, Page, Sorted, SameRows, BoundValue, Filter, Grammatical;
    forall s ensures InOrder(sql.order, s) <==> Sorted(sql.order, s) { SortedMeans(sql.order, s); }
    forall s ensures Passing(s, Where(d, sql, params), rows) <==> SameRows(s, Filter(Where(d, sql, params), rows)) {
      PassingMeans(s, Where(d, sql, params), rows);
    }
    forall s ensures IsPage(out, s, limit, offset) <==> out == Page(s, limit, offset) { PageMeans(out, s, limit, offset); }
  }

  // ---------------------------------------------------------------------
  // What is rendered and what is bound
  // ---------------------------------------------------------------------

  /** A LIKE on a field that is not text is rendered as a constant and binds nothing. */
  predicate IsConstant(q: Query, c: Cond) {
    c.op == LIKE && FindField(q.fields, c.field).Some? && !Textual(FindField(q.fields, c.field).value)
  }

  function Translated(d: Dialect, c: Cond): Value {
    if c.op == LIKE && c.value.Bytes? then Bytes(if d == Sqlite then ToGlob(c.value.b) else EscapeLike(c.value.b))
    else c.value
  }

  /** The values bound for the first n conditions. */
  function Params(d: Dialect, q: Query, n: nat): seq<Value>
    requires n <= |q.conds|
  {
    if n == 0 then []
    else Params(d, q, n - 1) + (if IsConstant(q, q.conds[n - 1]) then [] else [Translated(d, q.conds[n - 1])])
  }

  /** The conjuncts of the first n conditions: each takes the next parameter. */
  function Terms(d: Dialect, q: Query, n: nat): (t: seq<Term>)
    requires n <= |q.conds|
    ensures |t| == n
  {
    if n == 0 then []
    else
      var c := q.conds[n - 1];
      Terms(d, q, n - 1) + [if IsConstant(q, c) then Never else Test(c.field, c.op, |Params(d, q, n - 1)|)]
  }

  /** Limit and offset are bound as a C int in SQLite and written out as text in Postgres. */
  function Bind(d: Dialect, n: int): int {
    if d == Postgres then n
    else if n % LONG_TO_INT <= INT_MAX then n % LONG_TO_INT else n % LONG_TO_INT - LONG_TO_INT
  }

  function Rendered(d: Dialect, q: Query): Select {
    var n := |Params(d, q, |q.conds|)|;
    Select(Terms(d, q, |q.conds|), q.sorts,
      if q.limit >= 0 then Param(n) else if d == Sqlite && q.offset >= 0 then Constant(-1) else Absent,
      if q.offset >= 0 then Param(if q.limit >= 0 then n + 1 else n) else Absent)
  }

  function Bindings(d: Dialect, q: Query): seq<Value> {
    Params(d, q, |q.conds|)
      + (if q.limit >= 0 then [IntV(Bind(d, q.limit))] else [])
      + (if q.offset >= 0 then [IntV(Bind(d, q.offset))] else [])
  }

  // ---------------------------------------------------------------------
  // SQLite: anonymous placeholders, bound in a second loop
  // ---------------------------------------------------------------------

  /** The text of a condition: "0", or field, operator and a question mark. */
  datatype Piece = Zero | Compare(field: string, op: Op)
  datatype SqliteText = SqliteText(where: seq<Piece>, order: seq<Key>, limit: Mark, offset: Mark)
  datatype Mark = NoMark | MinusOne | Question

  function Questions(pieces: seq<Piece>): (n: nat) {
    if pieces == [] then 0
    else Questions(pieces[..|pieces| - 1]) + (if pieces[|pieces| - 1].Compare? then 1 else 0)
  }

  /** SQLite numbers the question marks of a statement from left to right. */
  function Numbered(pieces: seq<Piece>): (t: seq<Term>)
    ensures |t| == |pieces|
  {
    if pieces == [] then []
    else
      var n := |pieces| - 1;
      Numbered(pieces[..n])
        + [if pieces[n].Zero? then Never else Test(pieces[n].field, pieces[n].op, Questions(pieces[..n]))]
  }

  function NumberMark(m: Mark, k: nat): Bound {
    match m case NoMark => Absent case MinusOne => Constant(-1) case Question => Param(k)
  }

  function Prepared(t: SqliteText): Select {
    var n := Questions(t.where);
    Select(Numbered(t.where), t.order, NumberMark(t.limit, n),
      NumberMark(t.offset, if t.limit.Question? then n + 1 else n))
  }

  method SqliteRender(q: Query) returns (text: SqliteText)
    ensures Prepared(text) == Rendered(Sqlite, q)
  {
    hide IsConstant;
    var where: seq<Piece> := [];
    for i := 0 to |q.conds|
      invariant Numbered(where) == Terms(Sqlite, q, i) && Questions(where) == |Params(Sqlite, q, i)|
    {
      var c := q.conds[i];
      var constant := ConstantLike(q, c);
      ghost var before := where;
      where := where + [if constant then Zero else Compare(c.field, c.op)];
      assert where[..|where| - 1] == before;
    }
    var limit := if q.limit >= 0 then Question else if q.offset >= 0 then MinusOne else NoMark;
    text := SqliteText(where, q.sorts, limit, if q.offset >= 0 then Question else NoMark);
  }

  method ConstantLike(q: Query, c: Cond) returns (r: bool)
    ensures r == IsConstant(q, c)
  {
    var f := FindFieldAt(q.fields, c.field);
    return c.op == LIKE && f.Some? && !Textual(f.value);
  }

  method Translate(d: Dialect, c: Cond) returns (v: Value)
    ensures v == Translated(d, c)
  {
    if c.op != LIKE || !c.value.Bytes? { return c.value; }
    var pattern;
    if d == Sqlite { pattern := LikePatternToGlob(c.value.b); } else { pattern := EscapeLikePattern(c.value.b); }
    return Bytes(pattern);
  }

  /** None when a condition names no field. */
  method SqliteBind(q: Query) returns (params: Option<seq<Value>>)
    ensures params.None? <==> exists i :: 0 <= i < |q.conds| && FindField(q.fields, q.conds[i].field).None?
    ensures params.Some? ==> params.value == Bindings(Sqlite, q)
  {
    hide IsConstant, Translated;
    var bound := [];
    for i := 0 to |q.conds|
      invariant bound == Params(Sqlite, q, i)
      invariant forall k :: 0 <= k < i ==> FindField(q.fields, q.conds[k].field).Some?
    {
      var c := q.conds[i];
      var f := FindFieldAt(q.fields, c.field);
      if f.None? { return None; }
      var constant := ConstantLike(q, c);
      if constant { continue; }
      var v := Translate(Sqlite, c);
      bound := bound + [v];
    }
    if q.limit >= 0 { bound := bound + [IntV(Bind(Sqlite, q.limit))]; }
    if q.offset >= 0 { bound := bound + [IntV(Bind(Sqlite, q.offset))]; }
    return Some(bound);
  }

  // ---------------------------------------------------------------------
  // Postgres: numbered parameters, set as they are written
  // ---------------------------------------------------------------------

  predicate FieldsKnown(q: Query) {
    && (forall i :: 0 <= i < |q.conds| ==> FindField(q.fields, q.conds[i].field).Some?)
    && (forall i :: 0 <= i < |q.sorts| ==> FindField(q.fields, q.sorts[i].field).Some?)
  }

  lemma NoTerms(q: Query)
    ensures Terms(Postgres, q, 0) == [] && Params(Postgres, q, 0) == []
  {
  }

  lemma NextTerm(q: Query, i: nat)
    requires i < |q.conds|
    ensures var c := q.conds[i];
      if IsConstant(q, c) then
        Terms(Postgres, q, i + 1) == Terms(Postgres, q, i) + [Never]
        && Params(Postgres, q, i + 1) == Params(Postgres, q, i)
      else
        Terms(Postgres, q, i + 1) == Terms(Postgres, q, i) + [Test(c.field, c.op, |Params(Postgres, q, i)|)]
        && Params(Postgres, q, i + 1) == Params(Postgres, q, i) + [Translated(Postgres, c)]
  {
  }

  /** None when a field is unknown. */
  method PgRender(q: Query) returns (r: Option<(Select, seq<Value>)>)
    ensures r.Some? <==> FieldsKnown(q)
    ensures r.Some? ==> r.value == (Rendered(Postgres, q), Bindings(Postgres, q))
  {
    hide IsConstant, Translated, Terms, Params;
    var where: seq<Term> := [];
    NoTerms(q);
    var params := [];
    for i := 0 to |q.conds|
      invariant where == Terms(Postgres, q, i) && params == Params(Postgres, q, i)
      invariant forall k :: 0 <= k < i ==> FindField(q.fields, q.conds[k].field).Some?
    {
      var c := q.conds[i];
      var f := FindFieldAt(q.fields, c.field);
      if f.None? { return None; }
      var constant := ConstantLike(q, c);
      NextTerm(q, i);
      if constant { where := where + [Never]; continue; }
      var v := Translate(Postgres, c);
      where := where + [Test(c.field, c.op, |params|)];
      params := params + [v];
    }
    var order := [];
    for i := 0 to |q.sorts|
      invariant order == q.sorts[..i]
      invariant forall k :: 0 <= k < i ==> FindField(q.fields, q.sorts[k].field).Some?
    {
      var f := FindFieldAt(q.fields, q.sorts[i].field);
      if f.None? { return None; }
      order := order + [q.sorts[i]];
    }
    assert q.sorts[..|q.sorts|] == q.sorts;
    var limit, offset := Absent, Absent;
    if q.limit >= 0 {
      limit := Param(|params|);
      params := params + [IntV(Bind(Postgres, q.limit))];
    }
    if q.offset >= 0 {
      offset := Param(|params|);
      params := params + [IntV(Bind(Postgres, q.offset))];
    }
    assert params == Bindings(Postgres, q);
    assert Select(where, order, limit, offset) == Rendered(Postgres, q);
    return Some((Select(where, order, limit, offset), params));
  }

  // ---------------------------------------------------------------------
  // The statement means the query
  // ---------------------------------------------------------------------

  /** Every placeholder meets the value that was bound for its condition. */
  lemma {:induction false} TermAligned(d: Dialect, q: Query, i: nat, n: nat)
    requires i < n <= |q.conds|
    ensures var t := Terms(d, q, n)[i];
      if IsConstant(q, q.conds[i]) then t == Never
      else
        && t == Test(q.conds[i].field, q.conds[i].op, |Params(d, q, i)|)
        && t.param < |Params(d, q, n)| && Params(d, q, n)[t.param] == Translated(d, q.conds[i])
  {
    hide IsConstant, Translated;
    if i < n - 1 { TermAligned(d, q, i, n - 1); }
  }

  lemma ConditionMeans(d: Dialect, q: Query, i: nat, row: Row)
    requires Known(q) && Fits(q.fields, row) && i < |q.conds|
    ensures TermHolds(d, Terms(d, q, |q.conds|)[i], Bindings(d, q), row) == CondHolds(q, q.conds[i], row)
  {
    hide Terms, Params, Ord, Likes, OpHolds, Compares;
    var c := q.conds[i];
    assert CondKnown(q, c);
    TermAligned(d, q, i, |q.conds|);
    var f := FindField(q.fields, c.field).value;
    assert f.name in row && Storable(f, row[f.name]) by { FitsField(q.fields, row, f); }
    if c.op == LIKE && Textual(f) {
      GlobIsLike(row[f.name].b, c.value.b);
      EscapedIsLike(row[f.name].b, c.value.b);
    } else if c.op != LIKE {
      OpMeans(c.op, row[f.name], c.value);
    }
  }

  lemma FitsField(fields: seq<Field>, row: Row, f: Field)
    requires Fits(fields, row) && f in fields
    ensures f.name in row && Storable(f, row[f.name])
  {
  }

  /** WHERE with its bound values keeps exactly the rows that match the query. */
  lemma WhereMeans(d: Dialect, q: Query, row: Row)
    requires Known(q) && Fits(q.fields, row)
    ensures WhereHolds(d, Rendered(d, q).where, Bindings(d, q), row) == Matches(q, row)
  {
    hide CondKnown, Fits, CondHolds, TermHolds, Bindings;
    var terms := Terms(d, q, |q.conds|);
    forall i | 0 <= i < |q.conds|
      ensures TermHolds(d, terms[i], Bindings(d, q), row) == CondHolds(q, q.conds[i], row)
    {
      ConditionMeans(d, q, i, row);
    }
  }

  lemma {:induction false} FilterSame(p: Row -> bool, r: Row -> bool, rows: seq<Row>)
    requires forall x :: x in rows ==> p(x) == r(x)
    ensures Filter(p, rows) == Filter(r, rows)
  {
    if rows != [] { FilterSame(p, r, rows[..|rows| - 1]); }
  }

  lemma FilterMeans(d: Dialect, q: Query, rows: seq<Row>)
    requires Known(q) && AllFit(q.fields, rows)
    ensures Filter(Where(d, Rendered(d, q), Bindings(d, q)), rows) == Filter(Wanted(q), rows)
  {
    hide Known, Fits, Rendered, Bindings, Matches, WhereHolds;
    forall x | x in rows ensures Where(d, Rendered(d, q), Bindings(d, q))(x) == Wanted(q)(x) { WhereMeans(d, q, x); }
    FilterSame(Where(d, Rendered(d, q), Bindings(d, q)), Wanted(q), rows);
  }

  /** The page bounds the statement ends up with. */
  lemma BoundsBound(d: Dialect, q: Query)
    ensures BoundValue(Rendered(d, q).limit, Bindings(d, q)) == Some(if q.limit >= 0 then Bind(d, q.limit) else -1)
    ensures BoundValue(Rendered(d, q).offset, Bindings(d, q)) == Some(if q.offset >= 0 then Bind(d, q.offset) else -1)
  {
    hide Params, Terms;
  }

  /** Rows of a table differ in their primary key. */
  predicate KeyedBy(pk: string, rows: seq<Row>) {
    forall a, b :: a in rows && b in rows && Cell(a, pk) == Cell(b, pk) ==> a == b
  }

  /** The primary key is among the sort keys. */
  predicate SortsBy(q: Query, pk: string) { exists i :: 0 <= i < |q.sorts| && q.sorts[i].field == pk }

  lemma KeyTells(q: Query, pk: string, rows: seq<Row>)
    requires KeyedBy(pk, rows) && SortsBy(q, pk)
    ensures Telling(q.sorts, rows)
  {
    hide RowOrd;
    forall a, b | a in rows && b in rows && RowOrd(q.sorts, a, b) == 0 ensures a == b {
      RowOrdLaws(q.sorts, a, b);
    }
  }

  // ---------------------------------------------------------------------
  // Pages
  // ---------------------------------------------------------------------

  function BoundLimit(d: Dialect, q: Query): int { if q.limit >= 0 then Bind(d, q.limit) else -1 }
  function BoundOffset(d: Dialect, q: Query): int { if q.offset >= 0 then Bind(d, q.offset) else -1 }

  /** Where a page of m rows starts and how many rows it has; (0, 0) when it is empty. */
  function Window(m: nat, limit: int, offset: int): (w: (nat, nat))
    ensures w.0 + w.1 <= m
  {
    var start := if offset > 0 then offset else 0;
    if start >= m || limit == 0 then (0, 0)
    else if 0 <= limit < m - start then (start, limit)
    else (start, m - start)
  }

  /** The bound limit and offset cut the same page out of m rows. */
  predicate SameWindow(d: Dialect, q: Query, m: nat) {
    Window(m, BoundLimit(d, q), BoundOffset(d, q)) == Window(m, q.limit, q.offset)
  }

  lemma PageIsWindow(s: seq<Row>, limit: int, offset: int)
    ensures var w := Window(|s|, limit, offset); Page(s, limit, offset) == s[w.0..w.0 + w.1]
  {
  }

  predicate NoRepeats(s: seq<Row>) { forall i, j :: 0 <= i < j < |s| ==> s[i] != s[j] }

  /** Pages of different rows are equal only when their windows are. */
  lemma PagesAgreeExactly(s: seq<Row>, l1: int, o1: int, l2: int, o2: int)
    requires NoRepeats(s)
    ensures Page(s, l1, o1) == Page(s, l2, o2) <==> Window(|s|, l1, o1) == Window(|s|, l2, o2)
  {
    PageIsWindow(s, l1, o1);
    PageIsWindow(s, l2, o2);
    var v, w := Window(|s|, l1, o1), Window(|s|, l2, o2);
    var a, b := s[v.0..v.0 + v.1], s[w.0..w.0 + w.1];
    assert |a| == v.1 && |b| == w.1;
    if a == b && v.1 > 0 { assert a[0] == s[v.0] && b[0] == s[w.0]; }
  }

  /** Limit and offset reach the database as they are. */
  predicate PageFits(d: Dialect, q: Query) {
    d == Sqlite ==> q.limit == 0 || (q.limit <= INT_MAX && q.offset <= INT_MAX)
  }

  lemma BindKeeps(d: Dialect, n: nat)
    ensures d == Postgres || n <= INT_MAX ==> Bind(d, n) == n
    ensures d == Sqlite && n > INT_MAX ==> Bind(d, n) < n
  {
  }

  lemma FitsWindow(d: Dialect, q: Query, m: nat)
    requires PageFits(d, q)
    ensures SameWindow(d, q, m)
  {
    hide Bind;
    if q.limit >= 0 { BindKeeps(d, q.limit); }
    if q.offset >= 0 { BindKeeps(d, q.offset); }
  }

  /** How many rows tell a truncated limit or offset from the real one. */
  function TellingCount(q: Query): nat {
    (if q.offset > 0 then q.offset else 0) + (if q.offset > INT_MAX || q.limit < 0 then 1 else q.limit + 1)
  }

  lemma TruncationShows(q: Query)
    requires !PageFits(Sqlite, q)
    ensures !SameWindow(Sqlite, q, TellingCount(q))
  {
    hide Bind;
    if q.limit >= 0 { BindKeeps(Sqlite, q.limit); }
    if q.offset >= 0 { BindKeeps(Sqlite, q.offset); }
  }

  // ---------------------------------------------------------------------
  // The answer
  // ---------------------------------------------------------------------

  /** What the database may answer is a page of the one sorted order there is. */
  lemma AnswerIs(d: Dialect, sort: Sort, q: Query, pk: string, rows: seq<Row>, out: seq<Row>)
    requires Known(q) && AllFit(q.fields, rows) && KeyedBy(pk, rows) && SortsBy(q, pk) && IsSort(sort)
    ensures var mine := sort(q.sorts, Filter(Wanted(q), rows));
      && Answer(sort, q, rows) == Page(mine, q.limit, q.offset)
      && (SqlAnswer(d, Rendered(d, q), Bindings(d, q), rows, out)
          <==> out == Page(mine, BoundLimit(d, q), BoundOffset(d, q)))
  {
    hide Known, AllFit, KeyedBy, SortsBy, Sorted, SameRows, Telling, Page, Bindings, BoundValue, SqlAnswer;
    var matched := Filter(Wanted(q), rows);
    var mine := sort(q.sorts, matched);
    SomeKey(q, pk);
    FilterMeans(d, q, rows);
    BoundsBound(d, q);
    assert Grammatical(d, Rendered(d, q));
    SqlAnswerMeans(d, Rendered(d, q), Bindings(d, q), rows, out, BoundLimit(d, q), BoundOffset(d, q));
    assert Sorted(q.sorts, mine) && SameRows(mine, matched);
    forall s | Sorted(q.sorts, s) && SameRows(s, matched) ensures s == mine {
      KeyedMatched(q, pk, rows, matched);
      KeyTells(q, pk, matched);
      OneOrder(q.sorts, s, mine, matched);
    }
  }

  /**
    * Pushing a query down keeps its meaning: any answer the database may give to
    * the rendered statement is the in-memory answer, whichever sort that uses.
    */
  lemma PushdownExact(d: Dialect, sort: Sort, q: Query, pk: string, rows: seq<Row>, out: seq<Row>)
    requires Known(q) && AllFit(q.fields, rows) && KeyedBy(pk, rows) && SortsBy(q, pk) && PageFits(d, q)
    requires IsSort(sort)
    ensures SqlAnswer(d, Rendered(d, q), Bindings(d, q), rows, out) <==> out == Answer(sort, q, rows)
  {
    hide Known, AllFit, KeyedBy, SortsBy, Page, Window, PageFits, IsSort, Answer, SqlAnswer, Rendered, Bindings;
    AnswerIs(d, sort, q, pk, rows, out);
    var mine := sort(q.sorts, Filter(Wanted(q), rows));
    FitsWindow(d, q, |mine|);
    PageIsWindow(mine, q.limit, q.offset);
    PageIsWindow(mine, BoundLimit(d, q), BoundOffset(d, q));
  }

  /** A table: its rows differ, and differ in their key. */
  predicate IsTable(fields: seq<Field>, pk: string, rows: seq<Row>) {
    AllFit(fields, rows) && KeyedBy(pk, rows) && NoRepeats(rows)
  }

  /**
    * Without any condition on the size of limit and offset: over a table, the
    * database's answer is the in-memory one exactly when both cut the same page
    * out of as many rows as match.
    */
  lemma PushdownExactly(d: Dialect, sort: Sort, q: Query, pk: string, rows: seq<Row>)
    requires Known(q) && IsTable(q.fields, pk, rows) && SortsBy(q, pk) && IsSort(sort)
    ensures SqlAnswer(d, Rendered(d, q), Bindings(d, q), rows, Answer(sort, q, rows))
       <==> SameWindow(d, q, |Filter(Wanted(q), rows)|)
  {
    hide Known, AllFit, KeyedBy, SortsBy, Page, Window, Answer, SqlAnswer, Rendered, Bindings, Sorted;
    AnswerIs(d, sort, q, pk, rows, Answer(sort, q, rows));
    var matched := Filter(Wanted(q), rows);
    var mine := sort(q.sorts, matched);
    FilterNoRepeats(Wanted(q), rows);
    SortNoRepeats(mine, matched);
    PagesAgreeExactly(mine, BoundLimit(d, q), BoundOffset(d, q), q.limit, q.offset);
  }

  lemma {:induction false} FilterNoRepeats(p: Row -> bool, rows: seq<Row>)
    requires NoRepeats(rows)
    ensures NoRepeats(Filter(p, rows))
  {
    if rows != [] {
      var n := |rows| - 1;
      FilterNoRepeats(p, rows[..n]);
      assert rows[n] !in rows[..n];
    }
  }

  lemma {:induction false} CountRows(s: seq<Row>, r: Row)
    requires NoRepeats(s)
    ensures multiset(s)[r] == if r in s then 1 else 0
  {
    if s != [] {
      var n := |s| - 1;
      CountRows(s[..n], r);
      assert s == s[..n] + [s[n]] && s[n] !in s[..n];
    }
  }

  /** The same rows in another order repeat no row either. */
  lemma SortNoRepeats(a: seq<Row>, b: seq<Row>)
    requires SameRows(a, b) && NoRepeats(b)
    ensures |a| == |b| && NoRepeats(a)
  {
    assert |a| == |multiset(a)| && |b| == |multiset(b)|;
    forall i, j | 0 <= i < j < |a| ensures a[i] != a[j] {
      CountRows(b, a[i]);
      if a[i] == a[j] { TwiceIn(a, i, j); }
    }
  }

  lemma TwiceIn(a: seq<Row>, i: nat, j: nat)
    requires i < j < |a| && a[i] == a[j]
    ensures multiset(a)[a[i]] >= 2
  {
    assert a == a[..j] + a[j..] && a[i] == a[..j][i] && a[j] == a[j..][0];
    assert multiset(a) == multiset(a[..j]) + multiset(a[j..]);
    assert a[i] in multiset(a[..j]) && a[i] in multiset(a[j..]);
  }

  lemma SomeKey(q: Query, pk: string)
    requires SortsBy(q, pk)
    ensures q.sorts != []
  {
  }

  lemma KeyedMatched(q: Query, pk: string, rows: seq<Row>, matched: seq<Row>)
    requires Known(q) && KeyedBy(pk, rows) && matched == Filter(Wanted(q), rows)
    ensures KeyedBy(pk, matched)
  {
    hide Known;
  }

  lemma OneOrder(keys: seq<Key>, a: seq<Row>, b: seq<Row>, matched: seq<Row>)
    requires Sorted(keys, a) && Sorted(keys, b) && SameRows(a, matched) && SameRows(b, matched)
    requires Telling(keys, matched)
    ensures a == b
  {
    hide Sorted, RowOrd;
    assert Telling(keys, a) by {
      forall x, y | x in a && y in a && RowOrd(keys, x, y) == 0 ensures x == y {
        SameMembers(a, matched, x);
        SameMembers(a, matched, y);
      }
    }
    SortUnique(keys, a, b);
  }

  // ---------------------------------------------------------------------
  // Every table
  // ---------------------------------------------------------------------

  function KeyText(n: nat): (b: string)
    ensures |b| == n && NulFree(b)
  {
    seq(n, _ => 'a')
  }

  /** A schema whose one text field is its key, and a table of m rows. */
  function TextField(m: nat): Field { Field("id", StringField, m + 1) }

  function TextTable(m: nat): (rows: seq<Row>)
    ensures |rows| == m && forall i :: 0 <= i < m ==> rows[i] == map["id" := Bytes(KeyText(i))]
  {
    seq(m, i requires 0 <= i < m => map["id" := Bytes(KeyText(i))])
  }

  function TextQuery(m: nat, limit: int, offset: int): Query {
    Query([TextField(m)], [], [Key("id", false)], limit, offset)
  }

  lemma TextTableIsTable(m: nat, limit: int, offset: int)
    ensures var q := TextQuery(m, limit, offset);
      Known(q) && IsTable(q.fields, "id", TextTable(m)) && SortsBy(q, "id") && Filter(Wanted(q), TextTable(m)) == TextTable(m)
  {
    var q, rows := TextQuery(m, limit, offset), TextTable(m);
    assert FindField(q.fields, "id") == Some(TextField(m));
    forall i | 0 <= i < m ensures Fits(q.fields, rows[i]) && Cell(rows[i], "id") == Bytes(KeyText(i)) {
    }
    forall i, j | 0 <= i < m && 0 <= j < m && i != j ensures Cell(rows[i], "id") != Cell(rows[j], "id") {
      assert |KeyText(i)| != |KeyText(j)|;
    }
    assert q.sorts[0].field == "id";
    FilterAll(Wanted(q), rows);
  }

  lemma {:induction false} FilterAll(p: Row -> bool, rows: seq<Row>)
    requires forall r :: r in rows ==> p(r)
    ensures Filter(p, rows) == rows
  {
    if rows != [] {
      var n := |rows| - 1;
      forall r | r in rows[..n] ensures p(r) { assert r in rows; }
      FilterAll(p, rows[..n]);
      assert rows[n] in rows && rows == rows[..n] + [rows[n]];
    }
  }

  /** A query that sorts by the key of a table. */
  predicate Asks(q: Query, pk: string, rows: seq<Row>) {
    Known(q) && IsTable(q.fields, pk, rows) && SortsBy(q, pk)
  }

  /**
    * The bound is exact: SQLite answers every query with this limit and offset,
    * over every table, as the in-memory evaluator does, exactly when neither is
    * truncated by the binding as a C int or the limit is zero.
    */
  lemma PageFitsExactly(sort: Sort, page: Query)
    requires IsSort(sort)
    ensures PageFits(Sqlite, page) <==>
      forall q: Query, pk: string, rows: seq<Row> | q.limit == page.limit && q.offset == page.offset && Asks(q, pk, rows) ::
        SqlAnswer(Sqlite, Rendered(Sqlite, q), Bindings(Sqlite, q), rows, Answer(sort, q, rows))
  {
    hide Known, IsTable, SortsBy, SqlAnswer, Rendered, Bindings, Answer, IsSort, Window, Filter;
    forall q: Query, pk: string, rows: seq<Row> | PageFits(Sqlite, page) && q.limit == page.limit && q.offset == page.offset && Asks(q, pk, rows)
      ensures SqlAnswer(Sqlite, Rendered(Sqlite, q), Bindings(Sqlite, q), rows, Answer(sort, q, rows))
    {
      PushdownExactly(Sqlite, sort, q, pk, rows);
      FitsWindow(Sqlite, q, |Filter(Wanted(q), rows)|);
    }
    if !PageFits(Sqlite, page) {
      var m := TellingCount(page);
      var q := TextQuery(m, page.limit, page.offset);
      TextTableIsTable(m, page.limit, page.offset);
      TruncationShows(q);
      PushdownExactly(Sqlite, sort, q, "id", TextTable(m));
      assert Asks(q, "id", TextTable(m));
    }
  }

  /** A limit of 2^32 is bound as 0: SQLite answers nothing where one row matches. */
  lemma LimitTruncated(sort: Sort, out: seq<Row>)
    requires IsSort(sort)
    ensures var q := TextQuery(1, LONG_TO_INT, -1);
      && Known(q) && Answer(sort, q, TextTable(1)) == TextTable(1)
      && (SqlAnswer(Sqlite, Rendered(Sqlite, q), Bindings(Sqlite, q), TextTable(1), out) <==> out == [])
  {
    hide SqlAnswer, Rendered, Bindings, Answer, IsSort, Known, TextTable, TextField, Filter, AllFit, KeyedBy, SortsBy, NoRepeats, Page;
    var q, rows := TextQuery(1, LONG_TO_INT, -1), TextTable(1);
    TextTableIsTable(1, LONG_TO_INT, -1);
    AnswerIs(Sqlite, sort, q, "id", rows, out);
    OneRowSorted(sort, q.sorts, rows);
    assert BoundLimit(Sqlite, q) == 0 && BoundOffset(Sqlite, q) == -1;
    OneRowPages(rows);
  }

  lemma OneRowPages(rows: seq<Row>)
    requires |rows| == 1
    ensures Page(rows, 0, -1) == [] && Page(rows, LONG_TO_INT, -1) == rows
  {
  }

  lemma OneRowSorted(sort: Sort, keys: seq<Key>, rows: seq<Row>)
    requires IsSort(sort) && |rows| == 1
    ensures sort(keys, rows) == rows
  {
    var s := sort(keys, rows);
    assert SameRows(s, rows);
    SameLength(s, rows);
    SameMembers(s, rows, s[0]);
  }
}
