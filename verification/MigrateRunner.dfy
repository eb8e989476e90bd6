// The migration runner (tools/migrate/src/runner.c) over a transactional
// database in which any call may fail.
module MigrateRunner {
  import opened Text
  import opened MigratePlan

  /** The ledger table, sorted by its key, and the migrations whose SQL took effect, in that order. */
  datatype Db = Db(ledgerExists: bool, ledger: seq<Applied>, ran: seq<Migration>)

  function Row(m: Migration): Applied { Applied(m.version, m.name, m.checksum) }

  function InsertRow(a: seq<Applied>, r: Applied): seq<Applied> {
    if a == [] || r.version < a[0].version then [r] + a else [a[0]] + InsertRow(a[1..], r)
  }

  function WithApplied(db: Db, m: Migration): Db {
    db.(ledger := InsertRow(db.ledger, Row(m)), ran := db.ran + [m])
  }

  function WithAll(db: Db, ms: seq<Migration>): Db {
    if ms == [] then db else WithApplied(WithAll(db, ms[..|ms| - 1]), ms[|ms| - 1])
  }

  // ---------------------------------------------------------------------
  // The driver
  // ---------------------------------------------------------------------

  /** Which call of one migration fails, if any. */
  datatype Fault = NoFault | AtBegin | AtRecord | AtExec | AtCommit

  class Driver {
    var db: Db
    // What the open transaction sees.
    var open: Option<Db>

    constructor (d: Db)
      ensures db == d && open == None
    {
      db, open := d, None;
    }

    method EnsureLedger(fails: bool) returns (ok: bool)
      modifies this`db
      ensures ok == !fails && db == if fails then old(db) else old(db).(ledgerExists := true)
    {
      if !fails { db := db.(ledgerExists := true); }
      ok := !fails;
    }

    /** A missing ledger reads as an empty one. */
    method LoadApplied(fails: bool) returns (rows: Option<seq<Applied>>)
      ensures rows == if fails then None else Some(if db.ledgerExists then db.ledger else [])
    {
      rows := if fails then None else Some(if db.ledgerExists then db.ledger else []);
    }

    method Begin(fails: bool) returns (ok: bool)
      modifies this`open
      ensures ok == !fails && open == if fails then old(open) else Some(db)
    {
      if !fails { open := Some(db); }
      ok := !fails;
    }

    /** The version is the ledger's primary key. */
    method Record(m: Migration, fails: bool) returns (ok: bool)
      requires open.Some?
      modifies this`open
      ensures ok == (!fails && RowOf(old(open).value.ledger, m.version).None?)
      ensures open == if !ok then old(open)
        else Some(old(open).value.(ledger := InsertRow(old(open).value.ledger, Row(m))))
    {
      ok := !fails && RowOf(open.value.ledger, m.version).None?;
      if ok { open := Some(open.value.(ledger := InsertRow(open.value.ledger, Row(m)))); }
    }

    method Exec(m: Migration, fails: bool) returns (ok: bool)
      requires open.Some?
      modifies this`open
      ensures ok == !fails && open == if fails then old(open) else Some(old(open).value.(ran := old(open).value.ran + [m]))
    {
      if !fails { open := Some(open.value.(ran := open.value.ran + [m])); }
      ok := !fails;
    }

    method Commit(fails: bool) returns (ok: bool)
      requires open.Some?
      modifies this
      ensures ok == !fails
      ensures if fails then db == old(db) && open == old(open) else db == old(open).value && open == None
    {
      if !fails { db, open := open.value, None; }
      ok := !fails;
    }

    method Rollback()
      modifies this`open
      ensures open == None
    {
      open := None;
    }
  }

  // ---------------------------------------------------------------------
  // The runner
  // ---------------------------------------------------------------------

  datatype Ran = Ran(db: Db, done: nat, ok: bool)

  predicate Succeeds(db: Db, m: Migration, f: Fault) { f == NoFault && RowOf(db.ledger, m.version).None? }

  /** Recorded first, then executed; whatever fails, the transaction leaves nothing. */
  method ApplyOne(drv: Driver, m: Migration, f: Fault) returns (ok: bool)
    requires drv.open == None
    modifies drv
    ensures drv.open == None && ok == Succeeds(old(drv.db), m, f)
    ensures drv.db == if ok then WithApplied(old(drv.db), m) else old(drv.db)
  {
    var begun := drv.Begin(f == AtBegin);
    if !begun { return false; }
    var recorded := drv.Record(m, f == AtRecord);
    if recorded {
      recorded := drv.Exec(m, f == AtExec);
    }
    if !recorded {
      drv.Rollback();
      return false;
    }
    ok := drv.Commit(f == AtCommit);
    if !ok { drv.Rollback(); }
  }

  /** In order, up to the first failure. */
  function ApplyAll(db: Db, todo: seq<Migration>, faults: seq<Fault>): Ran
    decreases |todo|
  {
    if todo == [] then Ran(db, 0, true)
    else if !Succeeds(db, todo[0], if faults == [] then NoFault else faults[0]) then Ran(db, 0, false)
    else
      var r := ApplyAll(WithApplied(db, todo[0]), todo[1..], if faults == [] then [] else faults[1..]);
      r.(done := r.done + 1)
  }

  /** What the calls before the first migration do, and whether each of them fails. */
  datatype Call = Call(source: seq<Migration>, allowLate: bool, ledgerFails: bool, loadFails: bool, faults: seq<Fault>)

  function UpResult(db: Db, c: Call): Ran {
    if c.ledgerFails then Ran(db, 0, false)
    else
      var db1 := db.(ledgerExists := true);
      if c.loadFails || !SourceSorted(c.source) || !Clean(c.source, db.ledger, c.allowLate) then Ran(db1, 0, false)
      else ApplyAll(db1, Todo(c.source, db.ledger), c.faults)
  }

  /** A database whose ledger does not exist has no row. */
  predicate Usable(db: Db) { LedgerSorted(db.ledger) && (!db.ledgerExists ==> db.ledger == []) }

  method Up(drv: Driver, c: Call) returns (done: nat, ok: bool)
    requires drv.open == None && Usable(drv.db)
    modifies drv
    ensures drv.open == None && Ran(drv.db, done, ok) == UpResult(old(drv.db), c)
  {
    hide Merge, Clean, Todo, SourceSorted, LedgerSorted, Latest, ApplyAll, Count, PendingOf;
    var ready := drv.EnsureLedger(c.ledgerFails);
    if !ready { return 0, false; }
    var rows := drv.LoadApplied(c.loadFails);
    if rows.None? { return 0, false; }
    ghost var ledger := drv.db.ledger;
    var plan := PlanBuild(c.source, rows.value, c.allowLate);
    if plan.None? { return 0, false; }
    NoProblemIff(c.source, ledger, c.allowLate);
    PlanProblems(plan.value);
    PendingHasFile(c.source, ledger, c.allowLate);
    if plan.value.problems > 0 { return 0, false; }
    PendingIsTodo(c.source, ledger, Latest(ledger), c.allowLate);
    done, ok := ApplyPending(drv, plan.value.entries, c.faults);
  }

  method ApplyPending(drv: Driver, entries: seq<Entry>, faults: seq<Fault>) returns (done: nat, ok: bool)
    requires drv.open == None
    requires forall e :: e in entries && e.state == Pending ==> e.migration.Some?
    modifies drv
    ensures drv.open == None && Ran(drv.db, done, ok) == ApplyAll(old(drv.db), PendingOf(entries), faults)
  {
    done := 0;
    ghost var all := ApplyAll(drv.db, PendingOf(entries), faults);
    var left := faults;
    hide ApplyAll, PendingOf, WithApplied, Succeeds;
    assert entries[0..] == entries;
    for i := 0 to |entries|
      invariant drv.open == None && Continues(all, done, ApplyAll(drv.db, PendingOf(entries[i..]), left))
    {
      var e := entries[i];
      PendingNext(entries, i);
      if e.state != Pending { continue; }
      ApplyNext(drv.db, PendingOf(entries[i..]), left);
      var fault := if left == [] then NoFault else left[0];
      var applied := ApplyOne(drv, e.migration.value, fault);
      if !applied { return done, false; }
      if left != [] { left := left[1..]; }
      done := done + 1;
    }
    ok := true;
    PendingNothing(entries[|entries|..]);
    ApplyNext(drv.db, [], left);
  }

  /** all is r with done migrations applied before it. */
  predicate Continues(all: Ran, done: nat, r: Ran) { all == r.(done := done + r.done) }

  lemma PendingNothing(es: seq<Entry>)
    ensures es == [] ==> PendingOf(es) == []
  {
  }

  lemma PendingNext(es: seq<Entry>, i: nat)
    requires i < |es| && (es[i].state == Pending ==> es[i].migration.Some?)
    ensures var rest := PendingOf(es[i + 1..]);
      if es[i].state != Pending then PendingOf(es[i..]) == rest
      else
        && PendingOf(es[i..]) == [es[i].migration.value] + rest
        && PendingOf(es[i..])[1..] == rest
  {
    assert es[i..][0] == es[i] && es[i..][1..] == es[i + 1..];
  }

  lemma ApplyNext(db: Db, todo: seq<Migration>, faults: seq<Fault>)
    ensures
      if todo == [] then ApplyAll(db, todo, faults) == Ran(db, 0, true)
      else if !Succeeds(db, todo[0], if faults == [] then NoFault else faults[0]) then
        ApplyAll(db, todo, faults) == Ran(db, 0, false)
      else
        var r := ApplyAll(WithApplied(db, todo[0]), todo[1..], if faults == [] then [] else faults[1..]);
        ApplyAll(db, todo, faults) == r.(done := r.done + 1)
  {
  }

  lemma PlanProblems(plan: Plan)
    requires Counted(plan)
    ensures plan.problems == Count(IsBad(), plan.entries)
    ensures plan.problems == 0 ==> forall e :: e in plan.entries ==> !IsProblem(e.state)
  {
  }

  lemma PendingHasFile(s: seq<Migration>, a: seq<Applied>, allowLate: bool)
    requires SourceSorted(s) && LedgerSorted(a)
    ensures forall e :: e in Merge(s, a, Latest(a), allowLate) && e.state == Pending ==> e.migration.Some?
  {
    hide Merge, SourceSorted, LedgerSorted;
    forall e | e in Merge(s, a, Latest(a), allowLate) && e.state == Pending ensures e.migration.Some? {
      MergeExact(s, a, Latest(a), allowLate, e);
    }
  }
}
