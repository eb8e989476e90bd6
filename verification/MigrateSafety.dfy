// What a generated migration does to a real table: it runs, it closes the gap,
// and it keeps every cell. And a refusal is never needless.
module MigrateSafety {
  import opened Text
  import opened Migrate

  // ---------------------------------------------------------------------
  // Tables and statements
  // ---------------------------------------------------------------------

  /** None is NULL. */
  datatype Stored = Stored(col: Column, cells: seq<Option<string>>)
  datatype Table = Table(stored: seq<Stored>, rows: nat)

  function Shape(t: Table): (cols: seq<Column>)
    ensures |cols| == |t.stored| && forall i :: 0 <= i < |cols| ==> cols[i] == t.stored[i].col
  {
    seq(|t.stored|, i requires 0 <= i < |t.stored| => t.stored[i].col)
  }

  predicate Creatable(cols: seq<Column>) {
    && cols != [] && DistinctNames(cols)
    && forall i, j :: 0 <= i < j < |cols| ==> !(cols[i].pk && cols[j].pk)
  }

  function Empty(cols: seq<Column>): Table {
    Table(seq(|cols|, i requires 0 <= i < |cols| => Stored(cols[i], [])), 0)
  }

  function RenameColumn(s: Stored, from: string, to: string): Stored {
    if s.col.name == from then s.(col := s.col.(name := to)) else s
  }

  function RenameColumns(t: Table, from: string, to: string): Table {
    t.(stored := seq(|t.stored|, i requires 0 <= i < |t.stored| => RenameColumn(t.stored[i], from, to)))
  }

  function Nulls(n: nat): (r: seq<Option<string>>)
    ensures |r| == n
  {
    seq(n, _ => None)
  }

  /** SQLite's meaning of a statement; None when it is an error. */
  function Exec(t: Table, s: Statement): Option<Table> {
    match s
    case Create(cols) =>
      if t.stored != [] then Some(t) else if Creatable(cols) then Some(Empty(cols)) else None
    case Rename(from, to) =>
      if !Has(Shape(t), from) || (from != to && Has(Shape(t), to)) then None
      else Some(RenameColumns(t, from, to))
    case Add(name, typ) =>
      if t.stored == [] || Has(Shape(t), name) then None
      else Some(t.(stored := t.stored + [Stored(Column(name, typ, false), Nulls(t.rows))]))
  }

  function RunScript(t: Table, script: seq<Statement>): Option<Table> {
    if script == [] then Some(t)
    else
      var n := |script| - 1;
      match RunScript(t, script[..n])
      case None => None
      case Some(u) => Exec(u, script[n])
  }

  lemma {:induction false} RunScriptCat(t: Table, a: seq<Statement>, b: seq<Statement>)
    ensures RunScript(t, a + b) == (match RunScript(t, a) case None => None case Some(u) => RunScript(u, b))
  {
    hide Exec;
    if b == [] {
      assert a + b == a;
    } else {
      var n := |b| - 1;
      assert (a + b)[..|a| + n] == a + b[..n];
      RunScriptCat(t, a, b[..n]);
    }
  }

  // ---------------------------------------------------------------------
  // Renaming
  // ---------------------------------------------------------------------

  /** The name a database column has after the first n hints. */
  function NewName(q: Request, n: nat, name: string): string
    requires n <= |q.hints|
  {
    if n == 0 then name
    else if Valid(q, n - 1) && q.hints[n - 1].from == name then q.hints[n - 1].to
    else NewName(q, n - 1, name)
  }

  lemma {:induction false} NewNameCases(q: Request, n: nat, name: string)
    requires n <= |q.hints|
    ensures (NewName(q, n, name) == name && forall k :: 0 <= k < n && Valid(q, k) ==> q.hints[k].from != name)
      || (exists k :: 0 <= k < n && Valid(q, k) && q.hints[k].from == name && q.hints[k].to == NewName(q, n, name))
  {
    hide Valid;
    if n > 0 { NewNameCases(q, n - 1, name); }
  }

  function AfterRenames(q: Request, n: nat, t: Table): Table
    requires n <= |q.hints|
  {
    t.(stored := seq(|t.stored|, i requires 0 <= i < |t.stored| =>
      t.stored[i].(col := t.stored[i].col.(name := NewName(q, n, t.stored[i].col.name)))))
  }

  /** Valid hints never share a source or a target. */
  lemma ValidApart(q: Request, j: nat, k: nat)
    requires j < k < |q.hints| && Valid(q, j) && Valid(q, k)
    ensures q.hints[j].from != q.hints[k].from && q.hints[j].to != q.hints[k].to
  {
    assert !Clash(q, j, k);
  }

  lemma RenameFits(q: Request, n: nat, t: Table)
    requires n < |q.hints| && Valid(q, n) && Shape(t) == q.actual
    ensures Has(Shape(AfterRenames(q, n, t)), q.hints[n].from)
    ensures !Has(Shape(AfterRenames(q, n, t)), q.hints[n].to)
  {
    hide Valid;
    var u := AfterRenames(q, n, t);
    var h := q.hints[n];
    assert Plausible(q, h) by { assert Valid(q, n); RevealValid(q, n); }
    var i :| 0 <= i < |q.actual| && q.actual[i].name == h.from;
    NewNameCases(q, n, h.from);
    if k :| 0 <= k < n && Valid(q, k) && q.hints[k].from == h.from { ValidApart(q, k, n); }
    assert Shape(u)[i].name == h.from;
    forall i | 0 <= i < |q.actual| ensures Shape(u)[i].name != h.to {
      NewNameCases(q, n, q.actual[i].name);
      assert q.actual[i].name != h.to;
      if k :| 0 <= k < n && Valid(q, k) && q.hints[k].to == h.to { ValidApart(q, k, n); }
    }
  }

  lemma RevealValid(q: Request, k: nat)
    requires k < |q.hints| && Valid(q, k)
    ensures Mine(q, k) && Plausible(q, q.hints[k])
  {
  }

  lemma RenameStep(q: Request, n: nat, t: Table)
    requires n < |q.hints| && Valid(q, n) && Shape(t) == q.actual
    ensures RenameColumns(AfterRenames(q, n, t), q.hints[n].from, q.hints[n].to) == AfterRenames(q, n + 1, t)
  {
    hide Valid;
    var u := AfterRenames(q, n, t);
    var h := q.hints[n];
    forall i | 0 <= i < |t.stored|
      ensures RenameColumn(u.stored[i], h.from, h.to) == AfterRenames(q, n + 1, t).stored[i]
    {
      var name := t.stored[i].col.name;
      assert name == q.actual[i].name;
      NewNameCases(q, n, name);
      if name == h.from {
        if k :| 0 <= k < n && Valid(q, k) && q.hints[k].from == name { ValidApart(q, k, n); }
      } else if k :| 0 <= k < n && Valid(q, k) && q.hints[k].from == name && q.hints[k].to == h.from {
        RevealValid(q, k);
        RevealValid(q, n);
      }
    }
  }

  lemma {:induction false} RenamesRun(q: Request, n: nat, t: Table)
    requires n <= |q.hints| && Shape(t) == q.actual
    ensures RunScript(t, RenameScript(q, n)) == Some(AfterRenames(q, n, t))
  {
    hide Valid;
    if n == 0 {
      assert AfterRenames(q, 0, t).stored == t.stored;
    } else {
      RenamesRun(q, n - 1, t);
      var before := RenameScript(q, n - 1);
      if Valid(q, n - 1) {
        assert RenameScript(q, n)[..|before|] == before;
        RenameFits(q, n - 1, t);
        RenameStep(q, n - 1, t);
      } else {
        assert RenameScript(q, n) == before;
        assert AfterRenames(q, n, t).stored == AfterRenames(q, n - 1, t).stored;
      }
    }
  }

  // ---------------------------------------------------------------------
  // Adding
  // ---------------------------------------------------------------------

  predicate IsNew(q: Request, e: Column) { !Has(q.actual, e.name) && !RenamedTo(q, e.name) }

  /** The columns added for the first n expected columns. */
  function NewColumns(q: Request, n: nat): (cols: seq<Column>)
    requires n <= |q.expected|
    ensures forall i :: 0 <= i < |cols| ==> cols[i] in q.expected[..n] && IsNew(q, cols[i])
    ensures forall i :: 0 <= i < n && IsNew(q, q.expected[i]) ==> q.expected[i] in cols
  {
    if n == 0 then [] else NewColumns(q, n - 1) + (if IsNew(q, q.expected[n - 1]) then [q.expected[n - 1]] else [])
  }

  function AddAll(cols: seq<Column>): seq<Statement> {
    seq(|cols|, i requires 0 <= i < |cols| => Add(cols[i].name, cols[i].typ))
  }

  lemma {:induction false} AddScriptCat(q: Request, a: seq<Diff>, b: seq<Diff>)
    ensures AddScript(q, a + b) == AddScript(q, a) + AddScript(q, b)
  {
    hide Added;
    if b == [] {
      assert a + b == a;
    } else {
      assert (a + b)[..|a + b| - 1] == a + b[..|b| - 1];
      AddScriptCat(q, a, b[..|b| - 1]);
    }
  }

  lemma {:induction false} AddScriptNone(q: Request, diffs: seq<Diff>)
    requires forall i :: 0 <= i < |diffs| ==> !Added(q, diffs[i])
    ensures AddScript(q, diffs) == []
  {
    if diffs != [] { AddScriptNone(q, diffs[..|diffs| - 1]); }
  }

  lemma AddScriptOfColumn(q: Request, e: Column)
    ensures AddScript(q, ColumnDiffs(e, q.actual)) == if IsNew(q, e) then [Add(e.name, e.typ)] else []
  {
    hide RenamedTo;
    var d := ColumnDiffs(e, q.actual);
    if Has(q.actual, e.name) { AddScriptNone(q, d); }
    else { assert d[..0] == []; }
  }

  lemma {:induction false} AddScriptOfExpected(q: Request, n: nat)
    requires n <= |q.expected|
    ensures AddScript(q, ExpectedDiffs(q.expected[..n], q.actual)) == AddAll(NewColumns(q, n))
  {
    hide IsNew, ColumnDiffs;
    if n > 0 {
      var e := q.expected[n - 1];
      AddScriptOfExpected(q, n - 1);
      assert q.expected[..n][..n - 1] == q.expected[..n - 1];
      AddScriptCat(q, ExpectedDiffs(q.expected[..n - 1], q.actual), ColumnDiffs(e, q.actual));
      AddScriptOfColumn(q, e);
    }
  }

  lemma AddScriptIs(q: Request)
    requires q.actual != []
    ensures AddScript(q, Diffs(q.expected, q.actual)) == AddAll(NewColumns(q, |q.expected|))
  {
    assert q.expected[..|q.expected|] == q.expected;
    AddScriptOfExpected(q, |q.expected|);
    var extra := ExtraDiffs(q.expected, q.actual);
    forall i | 0 <= i < |extra| ensures !Added(q, extra[i]) { ExtraDiffIff(q.expected, q.actual, extra[i]); }
    AddScriptNone(q, extra);
    AddScriptCat(q, ExpectedDiffs(q.expected, q.actual), extra);
  }

  function Appended(t: Table, cols: seq<Column>): Table {
    t.(stored := t.stored + seq(|cols|, i requires 0 <= i < |cols| => Stored(cols[i].(pk := false), Nulls(t.rows))))
  }

  lemma {:induction false} AddsRun(t: Table, cols: seq<Column>)
    requires t.stored != [] && DistinctNames(cols)
    requires forall i :: 0 <= i < |cols| ==> !Has(Shape(t), cols[i].name)
    ensures RunScript(t, AddAll(cols)) == Some(Appended(t, cols))
  {
    if cols == [] {
      assert Appended(t, cols).stored == t.stored;
    } else {
      var n := |cols| - 1;
      AddsRun(t, cols[..n]);
      assert AddAll(cols)[..n] == AddAll(cols[..n]);
      var u := Appended(t, cols[..n]);
      assert !Has(Shape(u), cols[n].name) by {
        forall i | 0 <= i < |u.stored| ensures Shape(u)[i].name != cols[n].name {
          if i < |t.stored| { assert Shape(t)[i].name != cols[n].name; }
        }
      }
      assert Appended(t, cols).stored ==
        u.stored + [Stored(Column(cols[n].name, cols[n].typ, false), Nulls(t.rows))];
    }
  }

  // ---------------------------------------------------------------------
  // The generated migration closes the gap and keeps the data
  // ---------------------------------------------------------------------

  /** The database's columns are there in order, with their type, key flag and cells; only hinted names changed. */
  predicate Kept(q: Request, t: Table, u: Table) {
    && u.rows == t.rows && |t.stored| <= |u.stored| && DistinctNames(Shape(u))
    && forall i :: 0 <= i < |t.stored| ==>
      && u.stored[i] == t.stored[i].(col := t.stored[i].col.(name := u.stored[i].col.name))
      && (u.stored[i].col.name == t.stored[i].col.name
          || Hinted(q, t.stored[i].col.name, u.stored[i].col.name))
  }

  predicate Hinted(q: Request, from: string, to: string) { Hint(q.table, from, to) in q.hints }

  function After(q: Request, t: Table): Table {
    Appended(AfterRenames(q, |q.hints|, t), NewColumns(q, |q.expected|))
  }

  /** The generator said Ok for an existing table with this shape. */
  predicate Altering(q: Request, t: Table) {
    && Acceptable(q) && q.actual != [] && Shape(t) == q.actual
    && DistinctNames(q.expected) && DistinctNames(q.actual)
  }

  lemma {:induction false} NewColumnsDistinct(q: Request, n: nat)
    requires n <= |q.expected| && DistinctNames(q.expected)
    ensures DistinctNames(NewColumns(q, n))
  {
    hide IsNew, DistinctNames;
    if n == 0 {
      assert DistinctNames(NewColumns(q, 0)) by { Few([]); }
    } else {
      NewColumnsDistinct(q, n - 1);
      var before := NewColumns(q, n - 1);
      forall i | 0 <= i < |before| ensures before[i].name != q.expected[n - 1].name {
        var j :| 0 <= j < n - 1 && q.expected[j] == before[i];
        ApartAt(q.expected, j, n - 1);
      }
      assert before + [] == before;
      DistinctSnoc(before, q.expected[n - 1]);
    }
  }

  lemma Few(cols: seq<Column>)
    ensures |cols| <= 1 ==> DistinctNames(cols)
  {
  }

  lemma ApartAt(cols: seq<Column>, i: nat, j: nat)
    requires i < j < |cols| && DistinctNames(cols)
    ensures cols[i].name != cols[j].name
  {
  }

  lemma DistinctSnoc(cols: seq<Column>, e: Column)
    requires DistinctNames(cols) && forall i :: 0 <= i < |cols| ==> cols[i].name != e.name
    ensures DistinctNames(cols + [e])
  {
  }

  lemma NotBlocking(q: Request, d: Diff)
    requires Acceptable(q) && d in Diffs(q.expected, q.actual)
    ensures !Blocking(q, d)
  {
  }

  lemma MismatchBlocks(q: Request, e: Column, a: Column)
    requires a.name == e.name
    ensures a == e || exists d :: d in TypeDiffs(e, a) && Blocking(q, d)
  {
    if a.typ != e.typ { assert TypeMismatch(e, a) in TypeDiffs(e, a); }
    else if e.pk && !a.pk { assert PkMissing(e, a) in TypeDiffs(e, a); }
    else if a.pk && !e.pk { assert PkExtra(e, a) in TypeDiffs(e, a); }
  }

  /** An expected column is new without a key, or was renamed to, or is there unchanged. */
  lemma ExpectedCases(q: Request, e: Column)
    requires Acceptable(q) && q.actual != [] && e in q.expected
    ensures Has(q.actual, e.name) ==> Find(q.actual, e.name).value == e
    ensures IsNew(q, e) ==> !e.pk
  {
    hide RenamedTo, RenamedFrom, AllHintsHold, PlainNames, AnyBlocking, Diffs;
    var i :| 0 <= i < |q.expected| && q.expected[i] == e;
    forall d | d in ColumnDiffs(e, q.actual) ensures !Blocking(q, d) {
      ExpectedDiffIff(q.expected, q.actual, d);
      InDiffs(q, d);
      NotBlocking(q, d);
    }
    if Has(q.actual, e.name) {
      MismatchBlocks(q, e, Find(q.actual, e.name).value);
    } else {
      assert ColumnMissing(e) in ColumnDiffs(e, q.actual);
    }
  }

  lemma InDiffs(q: Request, d: Diff)
    requires q.actual != []
    requires d in ExpectedDiffs(q.expected, q.actual) || d in ExtraDiffs(q.expected, q.actual)
    ensures d in Diffs(q.expected, q.actual)
  {
  }

  lemma ActualCases(q: Request, a: Column)
    requires Acceptable(q) && q.actual != [] && a in q.actual
    ensures Has(q.expected, a.name) || RenamedFrom(q, a.name)
  {
    hide RenamedTo, RenamedFrom, AllHintsHold, PlainNames, AnyBlocking, Diffs;
    ExtraDiffIff(q.expected, q.actual, ColumnExtra(a));
    if !Has(q.expected, a.name) {
      InDiffs(q, ColumnExtra(a));
      NotBlocking(q, ColumnExtra(a));
    }
  }

  lemma FindUnique(cols: seq<Column>, i: nat)
    requires i < |cols| && DistinctNames(cols)
    ensures Find(cols, cols[i].name) == Some(cols[i])
  {
  }

  lemma HintApart(q: Request, k: nat)
    requires k < |q.hints| && Valid(q, k)
    ensures !Has(q.actual, q.hints[k].to) && !Has(q.expected, q.hints[k].from)
    ensures Hinted(q, q.hints[k].from, q.hints[k].to)
  {
  }

  /** Renaming keeps names apart, and away from the columns still to be added. */
  lemma RenamedDistinct(q: Request, t: Table)
    requires DistinctNames(q.actual) && Shape(t) == q.actual
    ensures DistinctNames(Shape(AfterRenames(q, |q.hints|, t)))
    ensures forall e :: IsNew(q, e) ==> !Has(Shape(AfterRenames(q, |q.hints|, t)), e.name)
  {
    hide Valid;
    var n := |q.hints|;
    var u := AfterRenames(q, n, t);
    forall i, j | 0 <= i < j < |q.actual| ensures Shape(u)[i].name != Shape(u)[j].name {
      RenamedApart(q, q.actual[i].name, q.actual[j].name);
    }
    forall e | IsNew(q, e) ensures !Has(Shape(u), e.name) {
      forall i | 0 <= i < |q.actual| ensures Shape(u)[i].name != e.name {
        NewNameCases(q, n, q.actual[i].name);
      }
    }
  }

  lemma RenamedApart(q: Request, a: string, b: string)
    requires a != b && Has(q.actual, a) && Has(q.actual, b)
    ensures NewName(q, |q.hints|, a) != NewName(q, |q.hints|, b)
  {
    hide Valid;
    var n := |q.hints|;
    NewNameCases(q, n, a);
    NewNameCases(q, n, b);
    forall k | 0 <= k < n && Valid(q, k) ensures q.hints[k].to != a && q.hints[k].to != b { HintApart(q, k); }
    forall j, k | 0 <= j < k < n && Valid(q, j) && Valid(q, k) ensures q.hints[j].to != q.hints[k].to {
      ValidApart(q, j, k);
    }
  }

  lemma AfterKeeps(q: Request, t: Table)
    requires Altering(q, t)
    ensures Kept(q, t, After(q, t))
  {
    hide Valid, Acceptable;
    RenamedDistinct(q, t);
    NewColumnsDistinct(q, |q.expected|);
    forall i | 0 <= i < |t.stored|
      ensures NewName(q, |q.hints|, t.stored[i].col.name) == t.stored[i].col.name
        || Hinted(q, t.stored[i].col.name, NewName(q, |q.hints|, t.stored[i].col.name))
    {
      var name := t.stored[i].col.name;
      NewNameCases(q, |q.hints|, name);
      if k :| 0 <= k < |q.hints| && Valid(q, k) && q.hints[k].from == name && q.hints[k].to == NewName(q, |q.hints|, name) {
        HintApart(q, k);
      }
    }
    assert DistinctNames(Shape(After(q, t))) by {
      var u := AfterRenames(q, |q.hints|, t);
      var m := |t.stored|;
      var cols := Shape(After(q, t));
      forall i, j | 0 <= i < j < |cols| ensures cols[i].name != cols[j].name {
        if j >= m && i < m {
          assert IsNew(q, NewColumns(q, |q.expected|)[j - m]);
          assert Shape(u)[i].name == cols[i].name;
        } else if j < m {
          assert Shape(u)[i].name == cols[i].name && Shape(u)[j].name == cols[j].name;
        }
      }
    }
  }

  lemma PositionAfter(q: Request, t: Table, i: nat)
    requires Altering(q, t) && i < |t.stored|
    ensures Shape(After(q, t))[i] == t.stored[i].col.(name := NewName(q, |q.hints|, t.stored[i].col.name))
  {
  }

  lemma ExpectedAgrees(q: Request, t: Table, e: Column)
    requires Altering(q, t) && e in q.expected
    ensures Agrees(e, Shape(After(q, t)))
  {
    hide Valid, Acceptable, After, IsNew;
    var cols := Shape(After(q, t));
    AfterKeeps(q, t);
    ExpectedCases(q, e);
    if Has(q.actual, e.name) {
      var i :| 0 <= i < |q.actual| && q.actual[i] == e;
      NewNameCases(q, |q.hints|, e.name);
      if k :| 0 <= k < |q.hints| && Valid(q, k) && q.hints[k].from == e.name { HintApart(q, k); }
      PositionAfter(q, t, i);
      FindUnique(cols, i);
    } else if RenamedTo(q, e.name) {
      var k :| 0 <= k < |q.hints| && Valid(q, k) && q.hints[k].to == e.name;
      RenamedAgrees(q, t, e, k);
    } else {
      NewIsAfter(q, t, e);
      var i :| 0 <= i < |cols| && cols[i] == e;
      FindUnique(cols, i);
    }
  }

  lemma NewIsAfter(q: Request, t: Table, e: Column)
    requires Altering(q, t) && e in q.expected && !Has(q.actual, e.name) && !RenamedTo(q, e.name)
    ensures e in Shape(After(q, t))
  {
    hide Acceptable, RenamedTo, NewName;
    ExpectedCases(q, e);
    assert IsNew(q, e);
    var m, added := |t.stored|, NewColumns(q, |q.expected|);
    var j :| 0 <= j < |q.expected| && q.expected[j] == e;
    var i :| 0 <= i < |added| && added[i] == e;
    assert Shape(After(q, t))[m + i] == e;
  }

  lemma RenamedAgrees(q: Request, t: Table, e: Column, k: nat)
    requires Altering(q, t) && e in q.expected && k < |q.hints| && Valid(q, k) && q.hints[k].to == e.name
    ensures Agrees(e, Shape(After(q, t)))
  {
    hide Valid, Acceptable, After;
    var h := q.hints[k];
    var cols := Shape(After(q, t));
    AfterKeeps(q, t);
    RevealValid(q, k);
    var x :| 0 <= x < |q.expected| && q.expected[x] == e;
    FindUnique(q.expected, x);
    var i :| 0 <= i < |q.actual| && q.actual[i].name == h.from;
    FindUnique(q.actual, i);
    NewNameCases(q, |q.hints|, h.from);
    forall j | 0 <= j < |q.hints| && Valid(q, j) && q.hints[j].from == h.from ensures j == k {
      if j < k { ValidApart(q, j, k); } else if k < j { ValidApart(q, k, j); }
    }
    PositionAfter(q, t, i);
    FindUnique(cols, i);
  }

  lemma ActualExpected(q: Request, t: Table, i: nat)
    requires Altering(q, t) && i < |Shape(After(q, t))|
    ensures Has(q.expected, Shape(After(q, t))[i].name)
  {
    hide Valid, Acceptable, IsNew;
    var cols := Shape(After(q, t));
    if i >= |t.stored| {
      assert cols[i].name == NewColumns(q, |q.expected|)[i - |t.stored|].name;
    } else {
      var name := q.actual[i].name;
      PositionAfter(q, t, i);
      NewNameCases(q, |q.hints|, name);
      ActualCases(q, q.actual[i]);
      if k :| 0 <= k < |q.hints| && Valid(q, k) && q.hints[k].from == name && q.hints[k].to == NewName(q, |q.hints|, name) {
        RevealValid(q, k);
      }
    }
  }

  /** An altering script runs without error, leaves no difference, and keeps every cell. */
  lemma AlterSound(q: Request, t: Table)
    requires Altering(q, t)
    ensures RunScript(t, Script(q)) == Some(After(q, t))
    ensures Diffs(q.expected, Shape(After(q, t))) == []
    ensures Kept(q, t, After(q, t))
  {
    hide Valid, Acceptable, IsNew;
    var n, added := |q.hints|, NewColumns(q, |q.expected|);
    RenamesRun(q, n, t);
    AddScriptIs(q);
    RenamedDistinct(q, t);
    NewColumnsDistinct(q, |q.expected|);
    AddsRun(AfterRenames(q, n, t), added);
    RunScriptCat(t, RenameScript(q, n), AddAll(added));
    assert forall i :: 0 <= i < |added| ==> added[i] in q.expected;
    assert Shape(After(q, t)) != [];
    assert Matches(q.expected, Shape(After(q, t))) by {
      hide After;
      forall i | 0 <= i < |q.expected| ensures Agrees(q.expected[i], Shape(After(q, t))) {
        ExpectedAgrees(q, t, q.expected[i]);
      }
      forall i | 0 <= i < |Shape(After(q, t))| ensures Has(q.expected, Shape(After(q, t))[i].name) {
        ActualExpected(q, t, i);
      }
    }
    NoDiffsIff(q.expected, Shape(After(q, t)));
    AfterKeeps(q, t);
  }

  /**
    * Whatever the generator says Ok to runs without error and leaves no
    * difference, keeping the data, with one exception the code does not guard
    * against: a missing table whose schema names no column or two key columns.
    */
  lemma GeneratorSound(q: Request, t: Table)
    requires Generated(q).Ok? && Shape(t) == q.actual && DistinctNames(q.expected) && DistinctNames(q.actual)
    ensures RunScript(t, Generated(q).script).Some? <==> (q.actual == [] ==> Creatable(q.expected))
    ensures RunScript(t, Generated(q).script).Some? ==>
      var u := RunScript(t, Generated(q).script).value;
      Diffs(q.expected, Shape(u)) == [] && (q.actual == [] || Kept(q, t, u))
  {
    hide Acceptable, Valid;
    if q.actual != [] {
      hide Exec, After;
      AlterSound(q, t);
    } else {
      assert Script(q)[..0] == [];
      assert RunScript(t, []) == Some(t);
      if Creatable(q.expected) {
        assert Shape(Empty(q.expected)) == q.expected;
        forall i | 0 <= i < |q.expected| ensures Agrees(q.expected[i], q.expected) { FindUnique(q.expected, i); }
        NoDiffsIff(q.expected, q.expected);
      }
    }
  }

  /** The exception is real: this request is answered with a script SQLite refuses. */
  lemma TwoKeysAreNotRefused()
    ensures var q := Request("t", [Column("a", "TEXT", true), Column("b", "TEXT", true)], [], []);
      Generated(q).Ok? && RunScript(Table([], 0), Generated(q).script).None?
  {
    var cols := [Column("a", "TEXT", true), Column("b", "TEXT", true)];
    var q := Request("t", cols, [], []);
    assert Diffs(cols, []) == [TableMissing];
    assert PlainNames(q);
    assert Script(q)[..0] == [];
    assert cols[0].pk && cols[1].pk;
    assert RunScript(Table([], 0), []) == Some(Table([], 0));
  }

  /** Nothing to do exactly when the request is acceptable and the shapes already agree. */
  lemma NothingExactly(q: Request)
    ensures Generated(q).Nothing? <==> Acceptable(q) && Matches(q.expected, q.actual)
  {
    hide Acceptable, Matches, Diffs;
    NoDiffsIff(q.expected, q.actual);
  }

  // ---------------------------------------------------------------------
  // A refusal is never needless
  // ---------------------------------------------------------------------

  /** The statements a generated script may use. */
  predicate Allowed(q: Request, s: Statement) {
    s.Rename? ==> exists k :: 0 <= k < |q.hints| && Valid(q, k) && q.hints[k].from == s.from && q.hints[k].to == s.to
  }

  /** The defect d of a shape, for as long as it is still there. */
  predicate StillWrong(q: Request, d: Diff, cols: seq<Column>) {
    match d
    case TableMissing => false
    case ColumnMissing(e) => e in q.expected && !(Has(cols, e.name) && Find(cols, e.name).value.pk)
    case ColumnExtra(a) => Has(cols, a.name) && !Has(q.expected, a.name)
    case TypeMismatch(e, a) => e in q.expected && a != e && Find(cols, e.name) == Some(a)
    case PkMissing(e, a) => e in q.expected && a != e && Find(cols, e.name) == Some(a)
    case PkExtra(e, a) => e in q.expected && a != e && Find(cols, e.name) == Some(a)
  }

  lemma BlockingIsWrong(q: Request, d: Diff)
    requires q.actual != [] && d in Diffs(q.expected, q.actual) && Blocking(q, d)
    ensures StillWrong(q, d, q.actual)
  {
    hide RenamedTo, RenamedFrom;
    ExpectedDiffIff(q.expected, q.actual, d);
    ExtraDiffIff(q.expected, q.actual, d);
  }

  lemma WrongIsDiff(q: Request, d: Diff, cols: seq<Column>)
    requires Blocking(q, d) && StillWrong(q, d, cols)
    ensures Diffs(q.expected, cols) != []
  {
    hide RenamedTo, RenamedFrom, Diffs;
    NoDiffsIff(q.expected, cols);
  }

  lemma FindAppended(cols: seq<Column>, c: Column, name: string)
    ensures Find(cols + [c], name) ==
      if Has(cols, name) then Find(cols, name) else if c.name == name then Some(c) else None
  {
    if cols != [] {
      assert (cols + [c])[1..] == cols[1..] + [c];
      FindAppended(cols[1..], c, name);
    }
  }

  lemma {:induction false} FindRenamed(cols: seq<Column>, after: seq<Column>, from: string, to: string, name: string)
    requires |after| == |cols| && name != from && (name == to ==> Has(cols, name) == false)
    requires forall i :: 0 <= i < |cols| ==> after[i] == if cols[i].name == from then cols[i].(name := to) else cols[i]
    ensures name != to ==> Find(after, name) == Find(cols, name)
  {
    if cols != [] && name != to { FindRenamed(cols[1..], after[1..], from, to, name); }
  }

  lemma WrongStays(q: Request, d: Diff, t: Table, s: Statement)
    requires Blocking(q, d) && t.stored != [] && StillWrong(q, d, Shape(t)) && Allowed(q, s) && Exec(t, s).Some?
    ensures var u := Exec(t, s).value; u.stored != [] && StillWrong(q, d, Shape(u))
  {
    hide Valid;
    var u := Exec(t, s).value;
    var name := match d case ColumnExtra(a) => a.name case TableMissing => "" case _ => d.e.name;
    match s
    case Create(_) =>
    case Add(n, typ) =>
      assert Shape(u) == Shape(t) + [Column(n, typ, false)];
      FindAppended(Shape(t), Column(n, typ, false), name);
    case Rename(from, to) =>
      var k :| 0 <= k < |q.hints| && Valid(q, k) && q.hints[k].from == from && q.hints[k].to == to;
      RevealValid(q, k);
      if name != to || !Has(Shape(t), name) { FindRenamed(Shape(t), Shape(u), from, to, name); }
  }

  lemma {:induction false} WrongForGood(q: Request, d: Diff, t: Table, script: seq<Statement>)
    requires Blocking(q, d) && t.stored != [] && StillWrong(q, d, Shape(t))
    requires forall i :: 0 <= i < |script| ==> Allowed(q, script[i])
    ensures match RunScript(t, script)
      case None => true
      case Some(u) => u.stored != [] && StillWrong(q, d, Shape(u))
  {
    hide Blocking, StillWrong, Allowed, Exec;
    if script != [] {
      var n := |script| - 1;
      WrongForGood(q, d, t, script[..n]);
      if RunScript(t, script).Some? { WrongStays(q, d, RunScript(t, script[..n]).value, script[n]); }
    }
  }

  /**
    * When the hints hold and the names can be written, the generator refuses
    * only if no script of additions and hinted renames closes the gap.
    */
  lemma RefusalNecessary(q: Request, t: Table, script: seq<Statement>)
    requires Generated(q).Refused? && |q.hints| <= RENAMES_MAX && PlainNames(q) && AllHintsHold(q)
    requires Shape(t) == q.actual && forall i :: 0 <= i < |script| ==> Allowed(q, script[i])
    ensures match RunScript(t, script)
      case None => true
      case Some(u) => Diffs(q.expected, Shape(u)) != []
  {
    hide Blocking, Allowed, Exec, PlainNames, AllHintsHold;
    var diffs := Diffs(q.expected, q.actual);
    var i :| 0 <= i < |diffs| && Blocking(q, diffs[i]);
    TableMissingIsSupported(q);
    BlockingIsWrong(q, diffs[i]);
    WrongForGood(q, diffs[i], t, script);
    if RunScript(t, script).Some? { WrongIsDiff(q, diffs[i], Shape(RunScript(t, script).value)); }
  }

  lemma TableMissingIsSupported(q: Request)
    ensures q.actual == [] ==> !AnyBlocking(q, Diffs(q.expected, q.actual))
  {
  }
}
