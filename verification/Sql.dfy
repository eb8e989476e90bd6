// What SQL makes of values, operators, ORDER BY and LIMIT, said without the
// in-memory evaluator of Query.dfy, and the proof that the two agree.
module Sql {
  import opened Text
  import opened Like
  import opened Query

  // ---------------------------------------------------------------------
  // Values and operators
  // ---------------------------------------------------------------------

  /** Byte order: a is a proper prefix of b, or has the smaller byte where they first differ. */
  predicate Before(a: string, b: string) {
    exists i :: 0 <= i <= |a| && BeforeAt(a, b, i)
  }

  predicate BeforeAt(a: string, b: string, i: nat)
    requires i <= |a|
  {
    i < |b| && a[..i] == b[..i] && (i == |a| || a[i] < b[i])
  }

  /** Numbers come before bytes. */
  predicate Less(a: Value, b: Value) {
    match (a, b)
    case (IntV(x), IntV(y)) => x < y
    case (Bytes(x), Bytes(y)) => Before(x, y)
    case (IntV(_), Bytes(_)) => true
    case (Bytes(_), IntV(_)) => false
  }

  predicate Compares(op: Op, a: Value, b: Value) {
    match op
    case EQ => a == b
    case NE => a != b
    case LT => Less(a, b)
    case LTE => Less(a, b) || a == b
    case GT => Less(b, a)
    case GTE => Less(b, a) || a == b
    case LIKE => false
  }

  // ---------------------------------------------------------------------
  // ORDER BY, WHERE and LIMIT on tables
  // ---------------------------------------------------------------------

  /** Some key puts a ahead of b and all keys before it are equal. */
  predicate Ahead(keys: seq<Key>, a: Row, b: Row) { exists k :: 0 <= k < |keys| && AheadAt(keys, a, b, k) }

  predicate AheadAt(keys: seq<Key>, a: Row, b: Row, k: nat)
    requires k < |keys|
  {
    var x, y := Cell(a, keys[k].field), Cell(b, keys[k].field);
    && (forall j :: 0 <= j < k ==> Cell(a, keys[j].field) == Cell(b, keys[j].field))
    && if keys[k].descending then Less(y, x) else Less(x, y)
  }

  predicate InOrder(keys: seq<Key>, s: seq<Row>) {
    forall i, j :: 0 <= i < j < |s| ==> !Ahead(keys, s[j], s[i])
  }

  /** s has the rows that pass, each as often as the table has it. */
  ghost predicate Passing(s: seq<Row>, p: Row -> bool, rows: seq<Row>) {
    forall r: Row :: multiset(s)[r] == if p(r) then multiset(rows)[r] else 0
  }

  /** The first rows are skipped and at most limit of the others kept; below zero there is no bound. */
  predicate IsPage(out: seq<Row>, s: seq<Row>, limit: int, offset: int) {
    var skipped := if offset < 0 then 0 else if offset < |s| then offset else |s|;
    var end := if limit < 0 || skipped + limit > |s| then |s| else skipped + limit;
    out == s[skipped..end]
  }

  // ---------------------------------------------------------------------
  // The in-memory evaluator agrees
  // ---------------------------------------------------------------------

  lemma {:induction false} LexMeans(a: string, b: string)
    ensures Lex(a, b) < 0 <==> Before(a, b)
  {
    if a == "" {
      if b != "" { assert BeforeAt(a, b, 0); }
    } else if b != "" && a[0] == b[0] {
      LexMeans(a[1..], b[1..]);
      assert a == [a[0]] + a[1..] && b == [b[0]] + b[1..];
      if Before(a, b) {
        var i :| 0 <= i <= |a| && BeforeAt(a, b, i);
        assert i > 0 && a[1..][..i - 1] == a[..i][1..] && b[1..][..i - 1] == b[..i][1..];
        assert BeforeAt(a[1..], b[1..], i - 1);
      }
      if Before(a[1..], b[1..]) {
        var i :| 0 <= i <= |a[1..]| && BeforeAt(a[1..], b[1..], i);
        assert a[..i + 1] == [a[0]] + a[1..][..i] && b[..i + 1] == [b[0]] + b[1..][..i];
        assert BeforeAt(a, b, i + 1);
      }
    } else if b != "" {
      if a[0] < b[0] { assert BeforeAt(a, b, 0); }
      if Before(a, b) { FirstNoLater(a, b); }
    }
  }

  lemma FirstNoLater(a: string, b: string)
    requires a != "" && b != "" && Before(a, b)
    ensures a[0] <= b[0]
  {
    var i :| 0 <= i <= |a| && BeforeAt(a, b, i);
    if i > 0 { assert a[..i][0] == b[..i][0]; }
  }

  lemma OrdMeans(a: Value, b: Value)
    ensures Ord(a, b) < 0 <==> Less(a, b)
    ensures Ord(a, b) > 0 <==> Less(b, a)
    ensures Ord(a, b) == 0 <==> a == b
  {
    hide Lex;
    OrdLaws(a, b);
    if a.Bytes? && b.Bytes? {
      LexMeans(a.b, b.b);
      LexMeans(b.b, a.b);
    }
  }

  /** The six operators mean what they do in SQL. */
  lemma OpMeans(op: Op, a: Value, b: Value)
    requires op != LIKE
    ensures OpHolds(op, Ord(a, b)) <==> Compares(op, a, b)
  {
    hide Ord, Less;
    OrdMeans(a, b);
  }

  /** A condition on an integer field compares the integers. */
  lemma IntCondition(q: Query, c: Cond, row: Row, f: Field, v: int, n: int)
    requires CondKnown(q, c) && Fits(q.fields, row) && FindField(q.fields, c.field) == Some(f) && f.kind == IntField
    requires row[f.name] == IntV(v) && c.value == IntV(n)
    ensures CondHolds(q, c, row) <==>
      match c.op
      case EQ => v == n
      case NE => v != n
      case LT => v < n
      case LTE => v <= n
      case GT => v > n
      case GTE => v >= n
      case LIKE => false
  {
  }

  /** A condition on a text or blob field compares bytes; LIKE matches the pattern, on text only. */
  lemma BytesCondition(q: Query, c: Cond, row: Row, f: Field, x: string, y: string)
    requires CondKnown(q, c) && Fits(q.fields, row) && FindField(q.fields, c.field) == Some(f) && f.kind != IntField
    requires row[f.name] == Bytes(x) && c.value == Bytes(y)
    ensures CondHolds(q, c, row) <==>
      match c.op
      case EQ => x == y
      case NE => x != y
      case LT => Before(x, y)
      case LTE => !Before(y, x)
      case GT => Before(y, x)
      case GTE => !Before(x, y)
      case LIKE => f.kind != BlobField && Likes(x, y)
  {
    hide Lex, Likes, Before;
    LexLaws(x, y);
    LexMeans(x, y);
    LexMeans(y, x);
  }

  lemma {:induction false} RowOrdMeans(keys: seq<Key>, a: Row, b: Row)
    ensures RowOrd(keys, a, b) < 0 <==> Ahead(keys, a, b)
  {
    hide Ord, Cell, Less;
    if keys != [] {
      var rest := keys[1..];
      var x, y := Cell(a, keys[0].field), Cell(b, keys[0].field);
      OrdMeans(x, y);
      RowOrdMeans(rest, a, b);
      if x == y {
        LessIrreflexive(x);
        if Ahead(keys, a, b) {
          var k :| 0 <= k < |keys| && AheadAt(keys, a, b, k);
          assert AheadAt(rest, a, b, k - 1);
        }
        if Ahead(rest, a, b) {
          var k :| 0 <= k < |rest| && AheadAt(rest, a, b, k);
          assert AheadAt(keys, a, b, k + 1);
        }
      } else {
        assert AheadAt(keys, a, b, 0) <==> RowOrd(keys, a, b) < 0;
      }
    }
  }

  lemma LessIrreflexive(x: Value)
    ensures !Less(x, x)
  {
    OrdMeans(x, x);
    OrdLaws(x, x);
  }

  lemma {:induction false} SortedMeans(keys: seq<Key>, s: seq<Row>)
    ensures Sorted(keys, s) <==> InOrder(keys, s)
  {
    hide RowOrd, Ahead;
    if s != [] {
      SortedMeans(keys, s[1..]);
      forall r | r in s[1..] ensures RowOrd(keys, s[0], r) <= 0 <==> !Ahead(keys, r, s[0]) {
        RowOrdLaws(keys, s[0], r);
        RowOrdMeans(keys, r, s[0]);
      }
      if Sorted(keys, s) {
        forall i, j | 0 <= i < j < |s| ensures !Ahead(keys, s[j], s[i]) {
          if i == 0 { assert s[j] == s[1..][j - 1]; } else { assert s[j] == s[1..][j - 1] && s[i] == s[1..][i - 1]; }
        }
      }
      if InOrder(keys, s) {
        forall i, j | 0 <= i < j < |s[1..]| ensures !Ahead(keys, s[1..][j], s[1..][i]) {
          assert s[1..][j] == s[j + 1] && s[1..][i] == s[i + 1];
        }
      }
    }
  }

  lemma {:induction false} FilterCounts(p: Row -> bool, rows: seq<Row>, r: Row)
    ensures multiset(Filter(p, rows))[r] == if p(r) then multiset(rows)[r] else 0
  {
    if rows != [] {
      var n := |rows| - 1;
      FilterCounts(p, rows[..n], r);
      assert rows == rows[..n] + [rows[n]];
    }
  }

  lemma PassingMeans(s: seq<Row>, p: Row -> bool, rows: seq<Row>)
    ensures Passing(s, p, rows) <==> SameRows(s, Filter(p, rows))
  {
    forall r ensures multiset(Filter(p, rows))[r] == if p(r) then multiset(rows)[r] else 0 { FilterCounts(p, rows, r); }
    if Passing(s, p, rows) {
      assert forall r: Row :: multiset(s)[r] == multiset(Filter(p, rows))[r];
    }
  }

  lemma PageMeans(out: seq<Row>, s: seq<Row>, limit: int, offset: int)
    ensures IsPage(out, s, limit, offset) <==> out == Page(s, limit, offset)
  {
  }

  /**
    * What bb_query_apply returns, for any sort: a page of the matching rows, each
    * as often as it was given, in the order the keys ask for.
    */
  lemma AnswerMeans(sort: Sort, q: Query, rows: seq<Row>) returns (s: seq<Row>)
    requires Known(q) && AllFit(q.fields, rows) && IsSort(sort)
    ensures InOrder(q.sorts, s) && Passing(s, Wanted(q), rows) && IsPage(Answer(sort, q, rows), s, q.limit, q.offset)
    ensures q.sorts == [] ==> s == Filter(Wanted(q), rows)
  {
    hide Known, AllFit, Page, Sorted;
    var matched := Filter(Wanted(q), rows);
    s := if q.sorts == [] then matched else sort(q.sorts, matched);
    if q.sorts == [] { NoKeys(s); } else { SortedMeans(q.sorts, s); }
    PassingMeans(s, Wanted(q), rows);
    PageMeans(Answer(sort, q, rows), s, q.limit, q.offset);
  }

  /** A row matches exactly when every condition holds of it. */
  lemma WantedMeans(q: Query, row: Row)
    requires Known(q) && Fits(q.fields, row)
    ensures forall c :: c in q.conds ==> CondKnown(q, c)
    ensures Wanted(q)(row) <==> forall c :: c in q.conds ==> CondHolds(q, c, row)
  {
    hide CondKnown, CondHolds, Fits;
  }

  lemma NoKeys(s: seq<Row>)
    ensures InOrder([], s)
  {
  }

  /** In what is returned, an integer first key that ascends puts smaller integers first, one that descends larger ones. */
  lemma IntKeyOrders(sort: Sort, q: Query, rows: seq<Row>, f: Field, i: nat, j: nat)
    requires Known(q) && AllFit(q.fields, rows) && IsSort(sort)
    requires q.sorts != [] && FindField(q.fields, q.sorts[0].field) == Some(f) && f.kind == IntField
    requires i < j < |Answer(sort, q, rows)|
    ensures var out := Answer(sort, q, rows);
      && out[i] in rows && out[j] in rows && f.name in out[i] && f.name in out[j]
      && out[i][f.name].IntV? && out[j][f.name].IntV?
      && (if q.sorts[0].descending then out[i][f.name].n >= out[j][f.name].n else out[i][f.name].n <= out[j][f.name].n)
  {
    hide Known, AllFit, Answer, IsSort, Filter, Ahead;
    var out := Answer(sort, q, rows);
    var s := AnswerMeans(sort, q, rows);
    var a := if q.offset < 0 then 0 else if q.offset < |s| then q.offset else |s|;
    assert out[i] == s[a + i] && out[j] == s[a + j];
    PassingMembers(s, Wanted(q), rows, out[i]);
    PassingMembers(s, Wanted(q), rows, out[j]);
    FitsInt(q.fields, rows, out[i], f);
    FitsInt(q.fields, rows, out[j], f);
    if AheadAt(q.sorts, out[j], out[i], 0) { AheadFirst(q.sorts, out[j], out[i]); }
  }

  lemma AheadFirst(keys: seq<Key>, a: Row, b: Row)
    requires keys != [] && AheadAt(keys, a, b, 0)
    ensures Ahead(keys, a, b)
  {
  }

  lemma PassingMembers(s: seq<Row>, p: Row -> bool, rows: seq<Row>, r: Row)
    requires Passing(s, p, rows) && r in s
    ensures r in rows && p(r)
  {
    assert multiset(s)[r] > 0;
  }

  lemma FitsInt(fields: seq<Field>, rows: seq<Row>, row: Row, f: Field)
    requires AllFit(fields, rows) && row in rows && f in fields && f.kind == IntField
    ensures f.name in row && row[f.name].IntV?
  {
    assert Fits(fields, row);
  }
}
