// Model queries (modules/persist/src/model/query.c): conditions, sort keys and
// a page, evaluated in memory. This is what the SQL backends must agree with.
module Query {
  import opened Text
  import opened Like

  datatype Kind = IntField | StringField | UuidField | BlobField
  datatype Field = Field(name: string, kind: Kind, size: nat)
  datatype Value = IntV(n: int) | Bytes(b: string)
  type Row = map<string, Value>

  datatype Op = EQ | NE | LT | LTE | GT | GTE | LIKE
  datatype Cond = Cond(field: string, op: Op, value: Value)
  datatype Key = Key(field: string, descending: bool)

  /** A limit or an offset below zero is unset. */
  datatype Query = Query(fields: seq<Field>, conds: seq<Cond>, sorts: seq<Key>, limit: int, offset: int)


  function FindField(fields: seq<Field>, name: string): (r: Option<Field>)
    ensures r.Some? ==> r.value.name == name && r.value in fields
  {
    if fields == [] then None else if fields[0].name == name then Some(fields[0]) else FindField(fields[1..], name)
  }

  predicate Textual(f: Field) { f.kind == StringField || f.kind == UuidField }

  // ---------------------------------------------------------------------
  // Values and their order
  // ---------------------------------------------------------------------

  function Sign(a: int, b: int): int { if a < b then -1 else if a > b then 1 else 0 }

  /** Byte order, a prefix first. */
  function Lex(a: string, b: string): int {
    if a == "" || b == "" then Sign(|a|, |b|)
    else if a[0] != b[0] then Sign(a[0] as int, b[0] as int)
    else Lex(a[1..], b[1..])
  }

  /** The order SQL gives stored values: numbers before bytes, bytes in byte order. */
  function Ord(a: Value, b: Value): int {
    match (a, b)
    case (IntV(x), IntV(y)) => Sign(x, y)
    case (Bytes(x), Bytes(y)) => Lex(x, y)
    case (IntV(_), Bytes(_)) => -1
    case (Bytes(_), IntV(_)) => 1
  }

  lemma {:induction false} LexLaws(a: string, b: string)
    ensures Lex(b, a) == -Lex(a, b) && -1 <= Lex(a, b) <= 1
    ensures Lex(a, b) == 0 <==> a == b
  {
    if a != "" && b != "" {
      LexLaws(a[1..], b[1..]);
      if a[0] == b[0] && a[1..] == b[1..] { assert a == [a[0]] + a[1..] && b == [b[0]] + b[1..]; }
    }
  }

  lemma {:induction false} LexTransitive(a: string, b: string, c: string)
    requires Lex(a, b) <= 0 && Lex(b, c) <= 0
    ensures Lex(a, c) <= 0
  {
    if a != "" && b != "" && c != "" && a[0] == b[0] && b[0] == c[0] { LexTransitive(a[1..], b[1..], c[1..]); }
  }

  lemma OrdLaws(a: Value, b: Value)
    ensures Ord(b, a) == -Ord(a, b) && -1 <= Ord(a, b) <= 1
    ensures Ord(a, b) == 0 <==> a == b
  {
    if a.Bytes? && b.Bytes? { LexLaws(a.b, b.b); }
  }

  lemma OrdTransitive(a: Value, b: Value, c: Value)
    requires Ord(a, b) <= 0 && Ord(b, c) <= 0
    ensures Ord(a, c) <= 0
  {
    if a.Bytes? && b.Bytes? && c.Bytes? { LexTransitive(a.b, b.b, c.b); }
  }

  /** The character at i of a C string. */
  function CharAt(s: string, i: nat): char { if i < |s| then s[i] else '\0' }

  /** strncmp of the C strings a and b. */
  method CompareText(a: string, b: string, n: nat) returns (r: int)
    requires NulFree(a) && NulFree(b) && |a| < n
    ensures r == Lex(a, b)
  {
    var i := 0;
    while i < n
      invariant 0 <= i <= |a| && i <= |b| && Lex(a[i..], b[i..]) == Lex(a, b)
    {
      var x, y := CharAt(a, i), CharAt(b, i);
      if x != y { return Sign(x as int, y as int); }
      if x == '\0' { return 0; }
      assert a[i..][1..] == a[i + 1..] && b[i..][1..] == b[i + 1..];
      i := i + 1;
    }
  }

  /** memcmp of two buffers of n bytes. */
  method CompareBytes(a: string, b: string, n: nat) returns (r: int)
    requires |a| == |b| == n
    ensures r == Lex(a, b)
  {
    for i := 0 to n
      invariant Lex(a[i..], b[i..]) == Lex(a, b)
    {
      if a[i] != b[i] { return Sign(a[i] as int, b[i] as int); }
      assert a[i..][1..] == a[i + 1..] && b[i..][1..] == b[i + 1..];
    }
    return 0;
  }

  /** A value a caller may compare with field f: text is a C string, a blob has the field's size. */
  predicate Comparable(f: Field, v: Value) {
    match f.kind
    case IntField => v.IntV?
    case BlobField => v.Bytes? && |v.b| == f.size
    case _ => v.Bytes? && NulFree(v.b)
  }

  /** A stored value; text leaves room for its terminator. */
  predicate Storable(f: Field, v: Value) { Comparable(f, v) && (Textual(f) ==> |v.b| < f.size) }

  method FieldCompare(f: Field, a: Value, b: Value) returns (r: int)
    requires Storable(f, a) && Comparable(f, b)
    ensures r == Ord(a, b)
  {
    match f.kind
    case IntField => r := Sign(a.n, b.n);
    case BlobField => r := CompareBytes(a.b, b.b, f.size);
    case _ => r := CompareText(a.b, b.b, f.size);
  }

  // ---------------------------------------------------------------------
  // Conditions
  // ---------------------------------------------------------------------

  /** Every field of the schema is in the row, with a value it can store. */
  predicate Fits(fields: seq<Field>, row: Row) {
    forall i :: 0 <= i < |fields| ==> fields[i].name in row && Storable(fields[i], row[fields[i].name])
  }

  /** What the builder checks of each condition and sort key, and what it trusts its caller with. */
  predicate Known(q: Query) {
    && (forall i :: 0 <= i < |q.conds| ==> CondKnown(q, q.conds[i]))
    && (forall i :: 0 <= i < |q.sorts| ==> FindField(q.fields, q.sorts[i].field).Some?)
  }

  predicate CondKnown(q: Query, c: Cond) {
    match FindField(q.fields, c.field)
    case None => false
    case Some(f) =>
      if c.op != LIKE then Comparable(f, c.value) else Textual(f) ==> Comparable(f, c.value)
  }

  predicate OpHolds(op: Op, cmp: int) {
    match op
    case EQ => cmp == 0
    case NE => cmp != 0
    case LT => cmp < 0
    case LTE => cmp <= 0
    case GT => cmp > 0
    case GTE => cmp >= 0
    case LIKE => false
  }

  predicate CondHolds(q: Query, c: Cond, row: Row)
    requires CondKnown(q, c) && Fits(q.fields, row)
  {
    var f := FindField(q.fields, c.field).value;
    if c.op == LIKE then Textual(f) && Likes(row[f.name].b, c.value.b)
    else OpHolds(c.op, Ord(row[f.name], c.value))
  }

  predicate Matches(q: Query, row: Row)
    requires Known(q) && Fits(q.fields, row)
  {
    forall i :: 0 <= i < |q.conds| ==> CondHolds(q, q.conds[i], row)
  }

  method FindFieldAt(fields: seq<Field>, name: string) returns (r: Option<Field>)
    ensures r == FindField(fields, name)
  {
    for i := 0 to |fields|
      invariant FindField(fields, name) == FindField(fields[i..], name)
    {
      if fields[i].name == name { return Some(fields[i]); }
      assert fields[i..][1..] == fields[i + 1..];
    }
    return None;
  }

  method CondMatches(q: Query, c: Cond, row: Row) returns (r: bool)
    requires CondKnown(q, c) && Fits(q.fields, row)
    ensures r == CondHolds(q, c, row)
  {
    var found := FindFieldAt(q.fields, c.field);
    if found.None? { return false; }
    var f := found.value;
    if c.op == LIKE {
      if !Textual(f) { return false; }
      r := LikeMatch(row[f.name].b, c.value.b);
      return;
    }
    var cmp := FieldCompare(f, row[f.name], c.value);
    r := OpHolds(c.op, cmp);
  }

  method QueryMatches(q: Query, row: Row) returns (r: bool)
    requires Known(q) && Fits(q.fields, row)
    ensures r == Matches(q, row)
  {
    for i := 0 to |q.conds|
      invariant forall k :: 0 <= k < i ==> CondHolds(q, q.conds[k], row)
    {
      var ok := CondMatches(q, q.conds[i], row);
      if !ok { return false; }
    }
    return true;
  }

  // ---------------------------------------------------------------------
  // Sorting
  // ---------------------------------------------------------------------

  function Cell(row: Row, name: string): Value { if name in row then row[name] else IntV(0) }

  /** Order by the first key that tells the rows apart. */
  function RowOrd(keys: seq<Key>, a: Row, b: Row): int {
    if keys == [] then 0
    else
      var cmp := Ord(Cell(a, keys[0].field), Cell(b, keys[0].field));
      if cmp != 0 then (if keys[0].descending then -cmp else cmp) else RowOrd(keys[1..], a, b)
  }

  method SortCmp(q: Query, a: Row, b: Row) returns (r: int)
    requires Known(q) && Fits(q.fields, a) && Fits(q.fields, b)
    ensures r == RowOrd(q.sorts, a, b)
  {
    hide Ord, Storable;
    for i := 0 to |q.sorts|
      invariant RowOrd(q.sorts, a, b) == RowOrd(q.sorts[i..], a, b)
    {
      var s := q.sorts[i];
      assert q.sorts[i..][0] == s && q.sorts[i..][1..] == q.sorts[i + 1..];
      var f := FindFieldAt(q.fields, s.field);
      if f.None? { continue; }
      StorableComparable(f.value, b[f.value.name]);
      var cmp := FieldCompare(f.value, a[f.value.name], b[f.value.name]);
      if cmp != 0 { return if s.descending then -cmp else cmp; }
    }
    return 0;
  }

  lemma StorableComparable(f: Field, v: Value)
    requires Storable(f, v)
    ensures Comparable(f, v)
  {
  }

  lemma {:induction false} RowOrdLaws(keys: seq<Key>, a: Row, b: Row)
    ensures RowOrd(keys, b, a) == -RowOrd(keys, a, b)
    ensures RowOrd(keys, a, b) == 0 ==>
      forall i :: 0 <= i < |keys| ==> Cell(a, keys[i].field) == Cell(b, keys[i].field)
  {
    hide Ord, Cell;
    if keys != [] {
      OrdLaws(Cell(a, keys[0].field), Cell(b, keys[0].field));
      RowOrdLaws(keys[1..], a, b);
    }
  }

  lemma {:induction false} RowOrdTransitive(keys: seq<Key>, a: Row, b: Row, c: Row)
    requires RowOrd(keys, a, b) <= 0 && RowOrd(keys, b, c) <= 0
    ensures RowOrd(keys, a, c) <= 0
  {
    hide Ord, Cell;
    if keys != [] {
      var x, y, z := Cell(a, keys[0].field), Cell(b, keys[0].field), Cell(c, keys[0].field);
      OrdLaws(x, y);
      OrdLaws(y, z);
      OrdLaws(x, z);
      if keys[0].descending { OrdTransitive(z, y, x); } else { OrdTransitive(x, y, z); }
      if x == y && y == z { RowOrdTransitive(keys[1..], a, b, c); }
    }
  }

  /** row comes no later than any of rows. */
  predicate First(keys: seq<Key>, row: Row, rows: seq<Row>) {
    forall r :: r in rows ==> RowOrd(keys, row, r) <= 0
  }

  predicate Sorted(keys: seq<Key>, rows: seq<Row>) {
    rows == [] || (First(keys, rows[0], rows[1..]) && Sorted(keys, rows[1..]))
  }

  /** row put in its place among sorted rows. */
  function Insert(keys: seq<Key>, rows: seq<Row>, row: Row): seq<Row> {
    if rows == [] || RowOrd(keys, row, rows[0]) <= 0 then [row] + rows
    else [rows[0]] + Insert(keys, rows[1..], row)
  }

  /** A sort as the library's qsort is one: what it does with rows that compare equal is its own affair. */
  type Sort = (seq<Key>, seq<Row>) -> seq<Row>

  ghost predicate IsSort(sort: Sort) {
    forall keys, rows :: Sorted(keys, sort(keys, rows)) && SameRows(sort(keys, rows), rows)
  }

  /** One such sort: by insertion. */
  function SortRows(keys: seq<Key>, rows: seq<Row>): seq<Row> {
    if rows == [] then [] else Insert(keys, SortRows(keys, rows[1..]), rows[0])
  }

  predicate SameRows(a: seq<Row>, b: seq<Row>) { multiset(a) == multiset(b) }

  lemma {:induction false} InsertKeeps(keys: seq<Key>, rows: seq<Row>, row: Row)
    ensures SameRows(Insert(keys, rows, row), [row] + rows)
  {
    hide RowOrd;
    if rows != [] && RowOrd(keys, row, rows[0]) > 0 {
      var tail := Insert(keys, rows[1..], row);
      InsertKeeps(keys, rows[1..], row);
      assert rows == [rows[0]] + rows[1..];
      assert multiset([rows[0]] + tail) == multiset{rows[0]} + multiset(tail);
      assert multiset([row] + rows) == multiset{row} + (multiset{rows[0]} + multiset(rows[1..]));
      assert multiset([row] + rows[1..]) == multiset{row} + multiset(rows[1..]);
    }
  }

  lemma SameMembers(a: seq<Row>, b: seq<Row>, r: Row)
    requires SameRows(a, b)
    ensures r in a <==> r in b
  {
    assert r in a <==> r in multiset(a);
    assert r in b <==> r in multiset(b);
  }

  lemma {:induction false} InsertSorts(keys: seq<Key>, rows: seq<Row>, row: Row)
    requires Sorted(keys, rows)
    ensures Sorted(keys, Insert(keys, rows, row))
  {
    hide RowOrd, SameRows;
    if rows != [] && RowOrd(keys, row, rows[0]) <= 0 {
      forall r | r in rows ensures RowOrd(keys, row, r) <= 0 {
        if r != rows[0] { RowOrdTransitive(keys, row, rows[0], r); }
      }
      assert ([row] + rows)[1..] == rows;
    } else if rows != [] {
      var tail := Insert(keys, rows[1..], row);
      InsertSorts(keys, rows[1..], row);
      InsertKeeps(keys, rows[1..], row);
      RowOrdLaws(keys, row, rows[0]);
      forall r | r in tail ensures RowOrd(keys, rows[0], r) <= 0 { SameMembers(tail, [row] + rows[1..], r); }
      assert ([rows[0]] + tail)[1..] == tail;
    }
  }

  lemma {:induction false} SortSorts(keys: seq<Key>, rows: seq<Row>)
    ensures Sorted(keys, SortRows(keys, rows)) && SameRows(SortRows(keys, rows), rows)
  {
    hide Sorted, Insert;
    if rows == [] {
      assert Sorted(keys, []) by { SortedEmpty(keys); }
    } else {
      var tail := SortRows(keys, rows[1..]);
      SortSorts(keys, rows[1..]);
      InsertSorts(keys, tail, rows[0]);
      InsertKeeps(keys, tail, rows[0]);
      assert rows == [rows[0]] + rows[1..];
      assert multiset([rows[0]] + tail) == multiset{rows[0]} + multiset(tail);
    }
  }

  lemma InsertionIsSort()
    ensures IsSort(SortRows)
  {
    forall keys, rows ensures Sorted(keys, SortRows(keys, rows)) && SameRows(SortRows(keys, rows), rows) {
      SortSorts(keys, rows);
    }
  }

  lemma SortedEmpty(keys: seq<Key>)
    ensures Sorted(keys, [])
  {
  }

  /** The keys tell any two different rows apart. */
  predicate Telling(keys: seq<Key>, rows: seq<Row>) {
    forall a, b :: a in rows && b in rows && RowOrd(keys, a, b) == 0 ==> a == b
  }

  lemma DropFirst(a: seq<Row>, b: seq<Row>)
    requires a != [] && b != [] && a[0] == b[0] && SameRows(a, b)
    ensures SameRows(a[1..], b[1..])
  {
    assert a == [a[0]] + a[1..] && b == [b[0]] + b[1..];
    assert multiset(a[1..]) == multiset(a) - multiset{a[0]};
    assert multiset(b[1..]) == multiset(b) - multiset{a[0]};
  }

  /** With keys that tell rows apart there is only one sorted order. */
  lemma {:induction false} SortUnique(keys: seq<Key>, a: seq<Row>, b: seq<Row>)
    requires Sorted(keys, a) && Sorted(keys, b) && SameRows(a, b) && Telling(keys, a)
    ensures a == b
  {
    hide RowOrd, SameRows;
    if a == [] {
      if b != [] { SameMembers(a, b, b[0]); }
    } else {
      SameMembers(a, b, a[0]);
      SameMembers(a, b, b[0]);
      assert b != [];
      FirstTwo(keys, a, b);
      DropFirst(a, b);
      SortUnique(keys, a[1..], b[1..]);
      assert a == [a[0]] + a[1..] && b == [b[0]] + b[1..];
    }
  }

  lemma HeadFirst(keys: seq<Key>, a: seq<Row>, x: Row)
    requires Sorted(keys, a) && x in a
    ensures x == a[0] || RowOrd(keys, a[0], x) <= 0
  {
  }

  lemma FirstTwo(keys: seq<Key>, a: seq<Row>, b: seq<Row>)
    requires Sorted(keys, a) && Sorted(keys, b) && a != [] && b != []
    requires a[0] in b && b[0] in a && Telling(keys, a)
    ensures a[0] == b[0]
  {
    hide RowOrd;
    RowOrdLaws(keys, a[0], b[0]);
    HeadFirst(keys, a, b[0]);
    HeadFirst(keys, b, a[0]);
  }

  // ---------------------------------------------------------------------
  // The answer
  // ---------------------------------------------------------------------

  function Filter(p: Row -> bool, rows: seq<Row>): (r: seq<Row>)
    ensures |r| <= |rows| && forall x :: x in r <==> x in rows && p(x)
  {
    if rows == [] then []
    else
      var n := |rows| - 1;
      Filter(p, rows[..n]) + (if p(rows[n]) then [rows[n]] else [])
  }

  predicate AllFit(fields: seq<Field>, rows: seq<Row>) { forall r :: r in rows ==> Fits(fields, r) }

  function Wanted(q: Query): Row -> bool
    requires Known(q)
  {
    row => Fits(q.fields, row) && Matches(q, row)
  }

  /** The rows from offset on, at most limit of them. */
  function Page(rows: seq<Row>, limit: int, offset: int): (r: seq<Row>) {
    var start := if offset > 0 then offset else 0;
    if start >= |rows| then []
    else if 0 <= limit < |rows| - start then rows[start..start + limit]
    else rows[start..]
  }

  function Answer(sort: Sort, q: Query, rows: seq<Row>): seq<Row>
    requires Known(q)
  {
    var matched := Filter(Wanted(q), rows);
    Page(if q.sorts == [] then matched else sort(q.sorts, matched), q.limit, q.offset)
  }

  method QueryApply(sort: Sort, q: Query, rows: seq<Row>) returns (r: seq<Row>)
    requires Known(q) && AllFit(q.fields, rows) && IsSort(sort)
    ensures r == Answer(sort, q, rows)
  {
    hide Known, Fits, Matches, IsSort;
    var matched := [];
    for i := 0 to |rows|
      invariant matched == Filter(Wanted(q), rows[..i])
    {
      assert rows[..i + 1][..i] == rows[..i];
      assert rows[i] in rows;
      var ok := QueryMatches(q, rows[i]);
      if ok { matched := matched + [rows[i]]; }
    }
    assert rows[..|rows|] == rows;
    if |matched| == 0 {
      NothingToSort(sort, q.sorts);
      return [];
    }
    if |q.sorts| > 0 {
      matched := sort(q.sorts, matched);
    }
    var start := if q.offset > 0 then q.offset else 0;
    if start >= |matched| { return []; }
    var available := |matched| - start;
    var count := if 0 <= q.limit < available then q.limit else available;
    r := matched[start..start + count];
  }

  lemma NothingToSort(sort: Sort, keys: seq<Key>)
    requires IsSort(sort)
    ensures sort(keys, []) == []
  {
    assert SameRows(sort(keys, []), []);
    SameLength(sort(keys, []), []);
  }

  lemma SameLength(a: seq<Row>, b: seq<Row>)
    requires SameRows(a, b)
    ensures |a| == |b|
  {
    assert |multiset(a)| == |a| && |multiset(b)| == |b|;
  }
}
