// Whole histories of migration runs: what every run keeps, whichever calls
// fail, for runs one after the other and for runners that interleave.
module MigrateHistory {
  import opened Text
  import opened MigratePlan
  import opened MigrateRunner

  // ---------------------------------------------------------------------
  // The ledger is exact
  // ---------------------------------------------------------------------

  /** The ledger has a row for a version exactly when that version's SQL took effect, once. */
  predicate Exact(db: Db) {
    && LedgerSorted(db.ledger)
    && (forall i, j :: 0 <= i < j < |db.ran| ==> db.ran[i].version != db.ran[j].version)
    && (forall m :: m in db.ran ==> Row(m) in db.ledger)
    && (forall r :: r in db.ledger ==> exists m :: m in db.ran && Row(m) == r)
    && (!db.ledgerExists ==> db.ledger == [])
  }

  function Rows(ms: seq<Migration>): (rows: seq<Applied>)
    ensures |rows| == |ms| && forall i :: 0 <= i < |ms| ==> rows[i] == Row(ms[i])
  {
    seq(|ms|, i requires 0 <= i < |ms| => Row(ms[i]))
  }

  /** The SQL took effect in ascending version order: the ledger, read in order, is the history. */
  predicate InOrder(db: Db) { Exact(db) && db.ledger == Rows(db.ran) }

  lemma {:induction false} InsertedRows(a: seq<Applied>, r: Applied)
    requires LedgerSorted(a) && RowOf(a, r.version).None?
    ensures LedgerSorted(InsertRow(a, r))
    ensures forall x :: x in InsertRow(a, r) <==> x == r || x in a
  {
    if a != [] && r.version >= a[0].version {
      RowHead(a, r.version);
      InsertedRows(a[1..], r);
      var rest := InsertRow(a[1..], r);
      forall j | 0 <= j < |rest| ensures a[0].version < rest[j].version {
        assert rest[j] in rest;
        if rest[j] != r { assert rest[j] in a[1..]; }
      }
      SortedCons(a[0], rest);
    } else {
      SortedCons(r, a);
    }
  }

  lemma SortedCons(r: Applied, a: seq<Applied>)
    requires LedgerSorted(a) && (a == [] || r.version < a[0].version)
    ensures LedgerSorted([r] + a)
  {
  }

  lemma RowsFound(a: seq<Applied>, v: nat)
    requires LedgerSorted(a)
    ensures RowOf(a, v).Some? <==> exists r :: r in a && r.version == v
  {
  }

  lemma AppliedExact(db: Db, m: Migration)
    requires Exact(db) && db.ledgerExists && RowOf(db.ledger, m.version).None?
    ensures Exact(WithApplied(db, m))
  {
    hide LedgerSorted, RowOf, InsertRow;
    InsertedRows(db.ledger, Row(m));
    var next := WithApplied(db, m);
    forall i | 0 <= i < |db.ran| ensures db.ran[i].version != m.version {
      assert Row(db.ran[i]) in db.ledger;
      RowsFound(db.ledger, m.version);
    }
    forall r | r in next.ledger ensures exists x :: x in next.ran && Row(x) == r {
      if r == Row(m) {
        assert m in next.ran;
      } else {
        var x :| x in db.ran && Row(x) == r;
        assert x in next.ran;
      }
    }
  }

  lemma {:induction false} AllExact(db: Db, todo: seq<Migration>, faults: seq<Fault>)
    requires Exact(db) && db.ledgerExists
    ensures Exact(ApplyAll(db, todo, faults).db)
    decreases |todo|
  {
    hide Exact, WithApplied;
    if todo != [] && Succeeds(db, todo[0], if faults == [] then NoFault else faults[0]) {
      AppliedExact(db, todo[0]);
      AppliedExists(db, todo[0]);
      AllExact(WithApplied(db, todo[0]), todo[1..], if faults == [] then [] else faults[1..]);
    }
  }

  lemma AppliedExists(db: Db, m: Migration)
    ensures WithApplied(db, m).ledgerExists == db.ledgerExists
  {
  }

  lemma UpExact(db: Db, c: Call)
    requires Exact(db)
    ensures Exact(UpResult(db, c).db)
  {
    hide ApplyAll, Clean, Todo;
    if !c.ledgerFails && !c.loadFails && SourceSorted(c.source) && Clean(c.source, db.ledger, c.allowLate) {
      AllExact(db.(ledgerExists := true), Todo(c.source, db.ledger), c.faults);
    }
  }

  /**
    * A run stopped before its first migration applies nothing. It changes the database
    * exactly when it gets past creating a ledger that was not there.
    */
  lemma RefusedChangesNothing(db: Db, c: Call)
    requires c.ledgerFails || c.loadFails || !SourceSorted(c.source) || !Clean(c.source, db.ledger, c.allowLate)
    ensures UpResult(db, c).done == 0 && !UpResult(db, c).ok
    ensures UpResult(db, c).db.ledger == db.ledger && UpResult(db, c).db.ran == db.ran
    ensures UpResult(db, c).db == db <==> c.ledgerFails || db.ledgerExists
  {
  }

  /** Without rows in the ledger every plan is clean. */
  lemma EmptyLedgerClean(source: seq<Migration>, allowLate: bool)
    requires SourceSorted(source)
    ensures Clean(source, [], allowLate)
  {
  }

  /** A plan with a problem is refused and nothing at all changes: a problem needs a ledger that is there. */
  lemma ProblemChangesNothing(db: Db, c: Call)
    requires Usable(db) && SourceSorted(c.source) && !c.ledgerFails && !c.loadFails
    requires !Clean(c.source, db.ledger, c.allowLate)
    ensures db.ledgerExists && UpResult(db, c) == Ran(db, 0, false)
  {
    EmptyLedgerClean(c.source, c.allowLate);
  }

  /** A run stopped by an error of its input may leave a new, empty ledger: here the files are not sorted. */
  lemma InputErrorLeavesLedger()
    ensures var files := [Migration(2, "b", "", ""), Migration(1, "a", "", "")];
      var c := Call(files, false, false, false, []);
      && UpResult(Fresh(), c) == Ran(Db(true, [], []), 0, false)
      && UpResult(Fresh(), c).db != Fresh()
  {
    var files := [Migration(2, "b", "", ""), Migration(1, "a", "", "")];
    assert files[0].version > files[1].version;
    assert !SourceSorted(files);
  }

  // ---------------------------------------------------------------------
  // In ascending order
  // ---------------------------------------------------------------------

  predicate AllLater(a: seq<Applied>, todo: seq<Migration>) { forall m :: m in todo ==> m.version > Latest(a) }

  lemma {:induction false} InsertLast(a: seq<Applied>, r: Applied)
    requires LedgerSorted(a) && r.version > Latest(a)
    ensures InsertRow(a, r) == a + [r]
  {
    if a != [] { InsertLast(a[1..], r); }
  }

  lemma LaterApplied(db: Db, m: Migration)
    requires InOrder(db) && db.ledgerExists && m.version > Latest(db.ledger)
    ensures RowOf(db.ledger, m.version).None? && InOrder(WithApplied(db, m))
    ensures Latest(WithApplied(db, m).ledger) == m.version
  {
    hide Exact;
    ExactSorted(db);
    NewestAbsent(db.ledger, m.version);
    hide RowOf, LedgerSorted, Usable;
    AppliedExact(db, m);
    InsertLast(db.ledger, Row(m));
  }

  lemma NewestAbsent(a: seq<Applied>, v: nat)
    requires LedgerSorted(a) && v > Latest(a)
    ensures RowOf(a, v).None?
  {
  }

  lemma ExactSorted(db: Db)
    requires Exact(db)
    ensures LedgerSorted(db.ledger) && Usable(db)
  {
  }

  lemma {:induction false} AllInOrder(db: Db, todo: seq<Migration>, faults: seq<Fault>)
    requires InOrder(db) && db.ledgerExists && SourceSorted(todo) && AllLater(db.ledger, todo)
    ensures InOrder(ApplyAll(db, todo, faults).db)
    decreases |todo|
  {
    hide InOrder, WithApplied, Latest;
    if todo != [] && Succeeds(db, todo[0], if faults == [] then NoFault else faults[0]) {
      LaterApplied(db, todo[0]);
      AppliedExists(db, todo[0]);
      AllInOrder(WithApplied(db, todo[0]), todo[1..], if faults == [] then [] else faults[1..]);
    }
  }

  lemma {:induction false} TodoSorted(s: seq<Migration>, a: seq<Applied>)
    requires SourceSorted(s)
    ensures SourceSorted(Todo(s, a))
  {
    if s != [] { TodoSorted(s[1..], a); }
  }

  lemma TodoLater(s: seq<Migration>, a: seq<Applied>)
    requires LedgerSorted(a) && Clean(s, a, false)
    ensures AllLater(a, Todo(s, a))
  {
    forall m | m in Todo(s, a) ensures m.version > Latest(a) {
      if a != [] { assert a[|a| - 1] in a; }
    }
  }

  lemma UpInOrder(db: Db, c: Call)
    requires InOrder(db) && !c.allowLate
    ensures InOrder(UpResult(db, c).db)
  {
    hide ApplyAll, Clean, Todo;
    if !c.ledgerFails && !c.loadFails && SourceSorted(c.source) && Clean(c.source, db.ledger, c.allowLate) {
      TodoSorted(c.source, db.ledger);
      TodoLater(c.source, db.ledger);
      AllInOrder(db.(ledgerExists := true), Todo(c.source, db.ledger), c.faults);
    }
  }

  function History(db: Db, calls: seq<Call>): Db {
    if calls == [] then db else UpResult(History(db, calls[..|calls| - 1]), calls[|calls| - 1]).db
  }

  function Fresh(): Db { Db(false, [], []) }

  /** Over any history of runs, whatever fails in them: each version's SQL took effect iff it is recorded, once. */
  lemma {:induction false} HistoryExact(calls: seq<Call>)
    ensures Exact(History(Fresh(), calls))
  {
    hide UpResult;
    if calls != [] {
      HistoryExact(calls[..|calls| - 1]);
      UpExact(History(Fresh(), calls[..|calls| - 1]), calls[|calls| - 1]);
    }
  }

  /** Unless late migrations are allowed, the database is the ledger's SQL in ascending version order. */
  lemma {:induction false} HistoryInOrder(calls: seq<Call>)
    requires forall c :: c in calls ==> !c.allowLate
    ensures InOrder(History(Fresh(), calls))
  {
    hide UpResult;
    if calls != [] {
      HistoryInOrder(calls[..|calls| - 1]);
      UpInOrder(History(Fresh(), calls[..|calls| - 1]), calls[|calls| - 1]);
    }
  }

  // ---------------------------------------------------------------------
  // Running again
  // ---------------------------------------------------------------------

  /** The ledger after the first n of todo. */
  lemma {:induction false} LedgerAfter(db: Db, todo: seq<Migration>, n: nat, v: nat)
    requires n <= |todo| && Usable(db) && SourceSorted(todo) && forall m :: m in todo ==> RowOf(db.ledger, m.version).None?
    ensures LedgerSorted(WithAll(db, todo[..n]).ledger)
    ensures RowOf(WithAll(db, todo[..n]).ledger, v) ==
      match FileOf(todo[..n], v) case None => RowOf(db.ledger, v) case Some(m) => Some(Row(m))
    ensures forall r :: r in WithAll(db, todo[..n]).ledger <==> r in db.ledger || exists m :: m in todo[..n] && Row(m) == r
  {
    hide LedgerSorted, InsertRow, RowOf, FileOf;
    if n == 0 {
      FileOfNothing(v);
    } else {
      var m := todo[n - 1];
      assert todo[..n][..n - 1] == todo[..n - 1];
      LedgerAfter(db, todo, n - 1, v);
      LedgerAfter(db, todo, n - 1, m.version);
      NotBefore(todo, n - 1);
      var before := WithAll(db, todo[..n - 1]).ledger;
      InsertedRows(before, Row(m));
      InsertedLookup(before, Row(m), v);
      FileOfSnoc(todo[..n - 1], m, v);
      assert todo[..n] == todo[..n - 1] + [m];
    }
  }

  lemma FileOfNothing(v: nat)
    ensures FileOf([], v) == None
  {
  }

  lemma NotBefore(todo: seq<Migration>, n: nat)
    requires n < |todo| && SourceSorted(todo)
    ensures FileOf(todo[..n], todo[n].version).None?
  {
  }

  lemma {:induction false} InsertedLookup(a: seq<Applied>, r: Applied, v: nat)
    requires LedgerSorted(a) && RowOf(a, r.version).None?
    ensures RowOf(InsertRow(a, r), v) == if v == r.version then Some(r) else RowOf(a, v)
  {
    InsertedRows(a, r);
    var b := InsertRow(a, r);
    if RowOf(a, v).Some? { RowUnique(b, RowOf(a, v).value); }
    RowUnique(b, r);
  }

  lemma {:induction false} FileOfSnoc(s: seq<Migration>, m: Migration, v: nat)
    ensures FileOf(s + [m], v) == if FileOf(s, v).Some? then FileOf(s, v) else if m.version == v then Some(m) else None
  {
    if s != [] {
      assert (s + [m])[1..] == s[1..] + [m];
      FileOfSnoc(s[1..], m, v);
    } else {
      assert ([m])[1..] == [];
    }
  }

  /** How many of todo are applied before the first failure. */
  function Before(faults: seq<Fault>, n: nat): (k: nat)
    ensures k <= n
  {
    if n == 0 || (faults != [] && faults[0] != NoFault) then 0
    else 1 + Before(if faults == [] then [] else faults[1..], n - 1)
  }

  predicate Absent(db: Db, todo: seq<Migration>) { forall m :: m in todo ==> RowOf(db.ledger, m.version).None? }

  /** A run applies a prefix: everything before the first failure. */
  lemma {:induction false} ApplyAllIs(db: Db, all: seq<Migration>, n: nat, faults: seq<Fault>)
    requires n <= |all| && Usable(db) && SourceSorted(all) && Absent(db, all)
    ensures var k := Before(faults, |all| - n);
      ApplyAll(WithAll(db, all[..n]), all[n..], faults) == Ran(WithAll(db, all[..n + k]), k, n + k == |all|)
    decreases |all| - n
  {
    hide RowOf, FileOf, WithApplied, Usable, SourceSorted, Absent;
    if n < |all| {
      var m := all[n];
      assert all[n..][0] == m && all[n..][1..] == all[n + 1..];
      LedgerAfter(db, all, n, m.version) by { AbsentAt(db, all); }
      NotBefore(all, n);
      AbsentRow(db, all, n);
      assert all[..n + 1][..n] == all[..n];
      assert WithAll(db, all[..n + 1]) == WithApplied(WithAll(db, all[..n]), m);
      if faults == [] || faults[0] == NoFault {
        ApplyAllIs(db, all, n + 1, if faults == [] then [] else faults[1..]);
      }
    }
  }

  lemma AbsentAt(db: Db, all: seq<Migration>)
    requires Absent(db, all)
    ensures forall m :: m in all ==> RowOf(db.ledger, m.version).None?
  {
  }

  lemma AbsentRow(db: Db, all: seq<Migration>, n: nat)
    requires Absent(db, all) && n < |all|
    ensures RowOf(db.ledger, all[n].version).None?
  {
  }

  lemma {:induction false} TodoAfter(s: seq<Migration>, a: seq<Applied>, b: seq<Applied>, k: nat)
    requires SourceSorted(s) && k <= |Todo(s, a)|
    requires forall m :: m in s ==>
      (RowOf(b, m.version).None? <==> RowOf(a, m.version).None? && m !in Todo(s, a)[..k])
    ensures Todo(s, b) == Todo(s, a)[k..]
  {
    hide RowOf;
    if s != [] {
      var t, rest := Todo(s, a), Todo(s[1..], a);
      assert s[0] !in s[1..] && SourceSorted(s[1..]) by { HeadApart(s); }
      hide SourceSorted;
      if RowOf(a, s[0].version).None? && k > 0 {
        assert t[..k] == [s[0]] + rest[..k - 1];
        assert t[..k][0] == s[0];
        TodoAfter(s[1..], a, b, k - 1);
        assert t[k..] == rest[k - 1..];
      } else {
        assert RowOf(a, s[0].version).Some? ==> t == rest;
        if k > 0 { TodoAfter(s[1..], a, b, k); }
        else {
          TodoSame(s, a, b);
          assert t[0..] == t;
        }
      }
    }
  }

  lemma HeadApart(s: seq<Migration>)
    requires SourceSorted(s) && s != []
    ensures s[0] !in s[1..] && SourceSorted(s[1..])
  {
  }

  /** What a second run of the same files still has to do, after the first k were applied. */
  lemma LeftOver(db: Db, s: seq<Migration>, allowLate: bool, k: nat)
    requires Usable(db) && SourceSorted(s) && Clean(s, db.ledger, allowLate) && k <= |Todo(s, db.ledger)|
    ensures var after := WithAll(db, Todo(s, db.ledger)[..k]);
      && LedgerSorted(after.ledger)
      && Todo(s, after.ledger) == Todo(s, db.ledger)[k..]
      && Clean(s, after.ledger, allowLate)
  {
    hide LedgerSorted, RowOf, FileOf, WithAll, Clean;
    var todo := Todo(s, db.ledger);
    var after := WithAll(db, todo[..k]);
    LeftOverTodo(db, s, k);
    TodoSorted(s, db.ledger);
    LedgerAfter(db, todo, k, 0) by { TodoAbsent(s, db.ledger, db); AbsentAt(db, todo); }
    CleanAfter(db, s, todo, after.ledger, k, allowLate) by { UsableSorted(db); }
  }

  lemma UsableSorted(db: Db)
    requires Usable(db)
    ensures LedgerSorted(db.ledger)
  {
  }

  lemma LeftOverTodo(db: Db, s: seq<Migration>, k: nat)
    requires Usable(db) && SourceSorted(s) && k <= |Todo(s, db.ledger)|
    ensures Todo(s, WithAll(db, Todo(s, db.ledger)[..k]).ledger) == Todo(s, db.ledger)[k..]
  {
    hide LedgerSorted, RowOf, FileOf, WithAll;
    var todo := Todo(s, db.ledger);
    var after := WithAll(db, todo[..k]);
    TodoSorted(s, db.ledger);
    forall m | m in s
      ensures RowOf(after.ledger, m.version).None? <==> RowOf(db.ledger, m.version).None? && m !in todo[..k]
    {
      LedgerAfter(db, todo, k, m.version);
      PrefixLookup(s, todo, k, m);
    }
    TodoAfter(s, db.ledger, after.ledger, k);
  }

  lemma CleanAfter(db: Db, s: seq<Migration>, todo: seq<Migration>, ledger: seq<Applied>, k: nat, allowLate: bool)
    requires LedgerSorted(db.ledger) && LedgerSorted(ledger) && Clean(s, db.ledger, allowLate) && SourceSorted(s)
    requires SourceSorted(todo) && todo == Todo(s, db.ledger) && k <= |todo| && Todo(s, ledger) == todo[k..]
    requires forall r :: r in ledger <==> r in db.ledger || exists m :: m in todo[..k] && Row(m) == r
    ensures Clean(s, ledger, allowLate)
  {
    hide LedgerSorted, RowOf, FileOf, SourceSorted, Todo;
    forall r | r in ledger
      ensures FileOf(s, r.version).Some? && FileOf(s, r.version).value.checksum == r.checksum
    {
      if r !in db.ledger {
        var m :| m in todo[..k] && Row(m) == r;
        assert m in todo;
        FileUnique(s, m);
      }
    }
    if !allowLate { LatestAfter(db, s, todo, ledger, k); }
  }

  lemma PrefixLookup(s: seq<Migration>, todo: seq<Migration>, k: nat, m: Migration)
    requires SourceSorted(s) && m in s && k <= |todo| && SourceSorted(todo) && forall x :: x in todo ==> x in s
    ensures FileOf(todo[..k], m.version).Some? <==> m in todo[..k]
  {
    if FileOf(todo[..k], m.version).Some? {
      var x := FileOf(todo[..k], m.version).value;
      FileUnique(s, x);
      FileUnique(s, m);
    }
  }

  /** The rest of the files are still later than everything applied. */
  lemma LatestAfter(db: Db, s: seq<Migration>, todo: seq<Migration>, ledger: seq<Applied>, k: nat)
    requires LedgerSorted(db.ledger) && LedgerSorted(ledger) && Clean(s, db.ledger, false)
    requires SourceSorted(todo) && todo == Todo(s, db.ledger) && k <= |todo| && Todo(s, ledger) == todo[k..]
    requires forall r :: r in ledger <==> r in db.ledger || exists m :: m in todo[..k] && Row(m) == r
    ensures forall m :: m in s && RowOf(ledger, m.version).None? ==> m.version >= Latest(ledger)
  {
    forall m | m in s && RowOf(ledger, m.version).None? ensures m.version >= Latest(ledger) {
      assert m in todo[k..];
      if ledger != [] {
        var r := ledger[|ledger| - 1];
        assert r in ledger;
        if r in db.ledger {
          InSorted(db.ledger, r);
          assert m in todo;
        } else {
          var x :| x in todo[..k] && Row(x) == r;
          SplitSorted(todo, k, x, m);
        }
      }
    }
  }

  lemma InSorted(a: seq<Applied>, r: Applied)
    requires LedgerSorted(a) && r in a
    ensures r.version <= Latest(a)
  {
  }

  lemma SplitSorted(todo: seq<Migration>, k: nat, x: Migration, m: Migration)
    requires SourceSorted(todo) && k <= |todo| && x in todo[..k] && m in todo[k..]
    ensures x.version < m.version
  {
  }

  /** The run the caller makes without any failing call. */
  function NoFaults(c: Call): Call { c.(ledgerFails := false, loadFails := false, faults := []) }

  lemma {:induction false} BeforeNone(n: nat)
    ensures Before([], n) == n
  {
    if n > 0 { BeforeNone(n - 1); }
  }

  lemma UpRuns(db: Db, c: Call)
    requires SourceSorted(c.source) && Clean(c.source, db.ledger, c.allowLate) && !c.ledgerFails && !c.loadFails
    ensures UpResult(db, c) == ApplyAll(db.(ledgerExists := true), Todo(c.source, db.ledger), c.faults)
  {
  }

  lemma TodoAbsent(s: seq<Migration>, a: seq<Applied>, db: Db)
    requires db.ledger == a
    ensures Absent(db, Todo(s, a))
  {
  }

  lemma UsableExists(db: Db)
    requires Usable(db)
    ensures Usable(db.(ledgerExists := true))
  {
  }

  lemma WithNone(db: Db)
    ensures WithAll(db, []) == db
  {
  }

  /** A run in terms of prefixes of what is to be done. */
  lemma UpIs(db: Db, c: Call)
    requires Usable(db) && SourceSorted(c.source) && Clean(c.source, db.ledger, c.allowLate)
    requires !c.ledgerFails && !c.loadFails
    ensures var todo := Todo(c.source, db.ledger);
      var k := Before(c.faults, |todo|);
      UpResult(db, c) == Ran(WithAll(db.(ledgerExists := true), todo[..k]), k, k == |todo|)
  {
    UpRuns(db, c);
    hide *;
    var todo := Todo(c.source, db.ledger);
    var db1 := db.(ledgerExists := true);
    TodoSorted(c.source, db.ledger);
    TodoAbsent(c.source, db.ledger, db1);
    UsableExists(db);
    FromStart(db1, todo, c.faults);
  }

  lemma FromStart(db: Db, todo: seq<Migration>, faults: seq<Fault>)
    requires Usable(db) && SourceSorted(todo) && Absent(db, todo)
    ensures var k := Before(faults, |todo|);
      ApplyAll(db, todo, faults) == Ran(WithAll(db, todo[..k]), k, k == |todo|)
  {
    hide *;
    var none, all, k := todo[..0], todo[0..], Before(faults, |todo| - 0);
    assert none == [] && all == todo;
    WithNone(db);
    ApplyAllIs(db, todo, 0, faults);
    assert WithAll(db, none) == db;
    assert todo[..0 + k] == todo[..k];
  }

  lemma {:induction false} WithAllSplit(db: Db, todo: seq<Migration>, k: nat, n: nat)
    requires k <= n <= |todo|
    ensures WithAll(WithAll(db, todo[..k]), todo[k..][..n - k]) == WithAll(db, todo[..n])
  {
    hide WithApplied;
    if n > k {
      WithAllSplit(db, todo, k, n - 1);
      assert todo[k..][..n - k][..n - k - 1] == todo[k..][..n - k - 1];
      assert todo[..n][..n - 1] == todo[..n - 1];
    } else {
      assert todo[k..][..0] == [];
    }
  }

  lemma {:induction false} WithAllExists(db: Db, ms: seq<Migration>)
    ensures WithAll(db, ms).ledgerExists == db.ledgerExists
  {
    if ms != [] { WithAllExists(db, ms[..|ms| - 1]); }
  }

  /**
    * A failed run resumes: running the same files again, now without failures,
    * ends in the same database as if nothing had failed, and the two runs
    * together apply each pending migration once.
    */
  lemma FailedRunResumes(db: Db, c: Call)
    requires Usable(db) && SourceSorted(c.source) && Clean(c.source, db.ledger, c.allowLate)
    ensures var first := UpResult(db, c);
      var again := UpResult(first.db, NoFaults(c));
      var whole := UpResult(db, NoFaults(c));
      first.done <= whole.done && whole.ok && again == Ran(whole.db, whole.done - first.done, true)
  {
    hide Clean, SourceSorted, LedgerSorted, Todo, WithAll, UpResult, Before;
    var todo := Todo(c.source, db.ledger);
    UpIs(db, NoFaults(c));
    BeforeNone(|todo|);
    if c.ledgerFails || c.loadFails {
      UpFailsEarly(db, c);
      var first := UpResult(db, c).db;
      UpIs(first, NoFaults(c));
    } else {
      UpIs(db, c);
      var db1, k := db.(ledgerExists := true), Before(c.faults, |todo|);
      LeftOver(db1, c.source, c.allowLate, k);
      var first := WithAll(db1, todo[..k]);
      WithAllExists(db1, todo[..k]);
      UpIs(first, NoFaults(c));
      BeforeNone(|todo| - k);
      WithAllSplit(db1, todo, k, |todo|);
      assert first.(ledgerExists := true) == first;
    }
  }

  lemma UpFailsEarly(db: Db, c: Call)
    requires c.ledgerFails || c.loadFails
    ensures UpResult(db, c) == Ran(if c.ledgerFails then db else db.(ledgerExists := true), 0, false)
  {
  }

  /** After a success, running again applies nothing. */
  lemma SecondRunIdle(db: Db, c: Call)
    requires Usable(db) && UpResult(db, c).ok
    ensures UpResult(UpResult(db, c).db, NoFaults(c)) == Ran(UpResult(db, c).db, 0, true)
  {
    assert !c.ledgerFails && !c.loadFails && SourceSorted(c.source) && Clean(c.source, db.ledger, c.allowLate);
    hide UpResult, Clean, SourceSorted, LedgerSorted, Todo, WithAll, Before;
    FailedRunResumes(db, c);
    UpIs(db, c);
    var todo := Todo(c.source, db.ledger);
    UpIs(db, NoFaults(c));
    BeforeNone(|todo|);
  }

  // ---------------------------------------------------------------------
  // Runners that interleave
  // ---------------------------------------------------------------------

  datatype Stage = Begun | Recorded | Executed

  /** The one open transaction: the database gives its write lock to one runner at a time. */
  datatype Txn = Txn(runner: nat, view: Db, stage: Stage)

  /** todo has what each running runner still means to apply. */
  datatype System = System(db: Db, txn: Option<Txn>, todo: map<nat, seq<Migration>>)

  datatype Event =
    | Start(runner: nat, call: Call)
    | Begin(runner: nat, fails: bool)
    | Record(runner: nat, fails: bool)
    | Exec(runner: nat, fails: bool)
    | Commit(runner: nat, fails: bool)

  function Stop(s: System, runner: nat): System { s.(txn := None, todo := s.todo - {runner}) }

  predicate InTxn(s: System, runner: nat, stage: Stage) {
    && s.txn.Some? && s.txn.value.runner == runner && s.txn.value.stage == stage
    && runner in s.todo && s.todo[runner] != []
  }

  /** One driver call of one runner; an event that is not enabled changes nothing. */
  function Next(s: System, e: Event): System {
    match e
    case Start(r, c) =>
      if r in s.todo || c.ledgerFails then s
      else
        var s1 := s.(db := s.db.(ledgerExists := true));
        if c.loadFails || !SourceSorted(c.source) || !Clean(c.source, s.db.ledger, c.allowLate) then s1
        else s1.(todo := s.todo[r := Todo(c.source, s.db.ledger)])
    case Begin(r, fails) =>
      if s.txn.Some? || r !in s.todo || s.todo[r] == [] then s
      else if fails then Stop(s, r)
      else s.(txn := Some(Txn(r, s.db, Begun)))
    case Record(r, fails) =>
      if !InTxn(s, r, Begun) then s
      else
        var v, m := s.txn.value.view, s.todo[r][0];
        if fails || RowOf(v.ledger, m.version).Some? then Stop(s, r)
        else s.(txn := Some(Txn(r, v.(ledger := InsertRow(v.ledger, Row(m))), Recorded)))
    case Exec(r, fails) =>
      if !InTxn(s, r, Recorded) then s
      else if fails then Stop(s, r)
      else
        var v, m := s.txn.value.view, s.todo[r][0];
        s.(txn := Some(Txn(r, v.(ran := v.ran + [m]), Executed)))
    case Commit(r, fails) =>
      if !InTxn(s, r, Executed) then s
      else if fails then Stop(s, r)
      else System(s.txn.value.view, None, s.todo[r := s.todo[r][1..]])
  }

  /** What the open transaction sees is the database and its own work. */
  predicate ViewFits(s: System) {
    s.txn.Some? ==>
      var t := s.txn.value;
      && t.runner in s.todo && s.todo[t.runner] != []
      && var m := s.todo[t.runner][0];
      match t.stage
      case Begun => t.view == s.db
      case Recorded =>
        && RowOf(s.db.ledger, m.version).None?
        && t.view == s.db.(ledger := InsertRow(s.db.ledger, Row(m)))
      case Executed =>
        RowOf(s.db.ledger, m.version).None? && t.view == WithApplied(s.db, m)
  }

  predicate Inv(s: System) { Exact(s.db) && ViewFits(s) && (s.todo != map[] ==> s.db.ledgerExists) }

  lemma NextKeeps(s: System, e: Event)
    requires Inv(s)
    ensures Inv(Next(s, e))
  {
    hide Clean, Todo, SourceSorted;
    if e.Commit? && InTxn(s, e.runner, Executed) && !e.fails {
      var m := s.todo[e.runner][0];
      hide Exact;
      assert e.runner in s.todo;
      assert s.todo != map[];
      AppliedExact(s.db, m);
      AppliedExists(s.db, m);
    }
  }

  function Run(s: System, es: seq<Event>): System {
    if es == [] then s else Next(Run(s, es[..|es| - 1]), es[|es| - 1])
  }

  /** However any number of runners interleave and fail, each version's SQL takes effect iff recorded, once. */
  lemma {:induction false} InterleavedExact(es: seq<Event>)
    ensures Inv(Run(System(Fresh(), None, map[]), es))
  {
    if es == [] {
      HistoryExact([]);
    } else {
      InterleavedExact(es[..|es| - 1]);
      hide Inv, Next;
      NextKeeps(Run(System(Fresh(), None, map[]), es[..|es| - 1]), es[|es| - 1]);
    }
  }
}
