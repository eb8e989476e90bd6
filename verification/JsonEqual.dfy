// Comparing and copying JSON values (modules/utils/src/json.c): equality is an
// equivalence that ignores the order of keys, and a clone is the same tree.
module JsonEqual {
  import opened Text
  import opened Json
  import opened JsonTable

  /** No object in v repeats a key. */
  predicate Proper(v: Json)
    decreases v, 1
  {
    match v
    case Array(items) => AllProper(items)
    case Object(pairs) => UniqueKeys(pairs) && PairsProper(pairs)
    case _ => true
  }

  predicate AllProper(items: seq<Json>)
    decreases items, 0
  {
    forall i :: 0 <= i < |items| ==> Proper(items[i])
  }

  predicate PairsProper(pairs: seq<Pair>)
    decreases pairs, 0
  {
    forall i :: 0 <= i < |pairs| ==> Proper(pairs[i].value)
  }

  /** Whether the floats that two tokens were read as are equal; a NaN is not equal to itself. */
  type FloatEq = (string, string) -> bool

  ghost predicate Symmetric(eq: FloatEq) { forall x, y :: eq(x, y) ==> eq(y, x) }
  ghost predicate Transitive(eq: FloatEq) { forall x, y, z :: eq(x, y) && eq(y, z) ==> eq(x, z) }

  /** Every real in v is equal to itself. */
  predicate NoNan(eq: FloatEq, v: Json)
    decreases v, 1
  {
    match v
    case Real(x) => eq(x, x)
    case Array(items) => forall i :: 0 <= i < |items| ==> NoNan(eq, items[i])
    case Object(pairs) => forall i :: 0 <= i < |pairs| ==> NoNan(eq, pairs[i].value)
    case _ => true
  }

  /** Same kind and content; arrays in order, objects key by key. */
  predicate Same(eq: FloatEq, a: Json, b: Json)
    decreases a, 1
  {
    match (a, b)
    case (Null, Null) => true
    case (Bool(x), Bool(y)) => x == y
    case (Int(x), Int(y)) => x == y
    case (Real(x), Real(y)) => eq(x, y)
    case (Str(x), Str(y)) => x == y
    case (Array(x), Array(y)) => |x| == |y| && forall i :: 0 <= i < |x| ==> Same(eq, x[i], y[i])
    case (Object(x), Object(y)) => |x| == |y| && PairsIn(eq, x, y)
    case _ => false
  }

  /** Every pair of x has its key in y with the same value. */
  predicate PairsIn(eq: FloatEq, x: seq<Pair>, y: seq<Pair>)
    decreases x, 0
  {
    forall i :: 0 <= i < |x| ==> Lookup(y, x[i].key).Some? && Same(eq, x[i].value, Lookup(y, x[i].key).value)
  }

  method Equal(eq: FloatEq, a: Json, b: Json) returns (r: bool)
    ensures r == Same(eq, a, b)
    decreases a
  {
    match (a, b)
    case (Array(x), Array(y)) =>
      if |x| != |y| { return false; }
      for i := 0 to |x|
        invariant forall k :: 0 <= k < i ==> Same(eq, x[k], y[k])
      {
        var same := Equal(eq, x[i], y[i]);
        if !same { return false; }
      }
      return true;
    case (Object(x), Object(y)) =>
      if |x| != |y| { return false; }
      for i := 0 to |x|
        invariant forall k :: 0 <= k < i ==> Lookup(y, x[k].key).Some? && Same(eq, x[k].value, Lookup(y, x[k].key).value)
      {
        var other := Lookup(y, x[i].key);
        if other.None? { return false; }
        var same := Equal(eq, x[i].value, other.value);
        if !same { return false; }
      }
      return true;
    case _ => return Same(eq, a, b);
  }

  // ---------------------------------------------------------------------
  // Equality is an equivalence
  // ---------------------------------------------------------------------

  function Keys(pairs: seq<Pair>): set<string> { set i | 0 <= i < |pairs| :: pairs[i].key }

  lemma {:induction false} KeysCount(pairs: seq<Pair>)
    requires UniqueKeys(pairs)
    ensures |Keys(pairs)| == |pairs|
  {
    if pairs != [] {
      var n := |pairs| - 1;
      KeysCount(pairs[..n]);
      assert Keys(pairs) == Keys(pairs[..n]) + {pairs[n].key};
    } else {
      assert Keys(pairs) == {};
    }
  }

  lemma {:induction false} LookupKey(pairs: seq<Pair>, key: string)
    ensures Lookup(pairs, key).Some? <==> key in Keys(pairs)
    ensures Lookup(pairs, key).Some? ==> Pair(key, Lookup(pairs, key).value) in pairs
  {
    if pairs != [] {
      LookupKey(pairs[1..], key);
      assert Keys(pairs) == {pairs[0].key} + Keys(pairs[1..]) by {
        forall k | k in Keys(pairs) ensures k in {pairs[0].key} + Keys(pairs[1..]) {
          var i :| 0 <= i < |pairs| && pairs[i].key == k;
          if i > 0 { assert pairs[1..][i - 1].key == k; }
        }
        forall k | k in Keys(pairs[1..]) ensures k in Keys(pairs) {
          var i :| 0 <= i < |pairs[1..]| && pairs[1..][i].key == k;
          assert pairs[i + 1].key == k;
        }
        assert pairs[0].key in Keys(pairs);
      }
    }
  }

  lemma {:induction false} LookupAt(pairs: seq<Pair>, i: nat)
    requires UniqueKeys(pairs) && i < |pairs|
    ensures Lookup(pairs, pairs[i].key) == Some(pairs[i].value)
  {
    if i > 0 { LookupAt(pairs[1..], i - 1); }
  }

  lemma {:induction false} SubsetEqual(a: set<string>, b: set<string>)
    requires a <= b && |a| == |b|
    ensures a == b
  {
    assert |b - a| == 0;
  }

  /** With as many keys on both sides and every key of x in y, every key of y is in x. */
  lemma KeysAgree(eq: FloatEq, x: seq<Pair>, y: seq<Pair>)
    requires UniqueKeys(x) && UniqueKeys(y) && |x| == |y| && PairsIn(eq, x, y)
    ensures Keys(x) == Keys(y)
  {
    KeysCount(x);
    KeysCount(y);
    forall k | k in Keys(x) ensures k in Keys(y) { LookupKey(y, k); }
    SubsetEqual(Keys(x), Keys(y));
  }

  lemma {:induction false} SameSymmetric(eq: FloatEq, a: Json, b: Json)
    requires Proper(a) && Proper(b) && Symmetric(eq) && Same(eq, a, b)
    ensures Same(eq, b, a)
    decreases a
  {
    match (a, b)
    case (Array(x), Array(y)) =>
      forall i | 0 <= i < |y| ensures Same(eq, y[i], x[i]) { SameSymmetric(eq, x[i], y[i]); }
    case (Object(x), Object(y)) =>
      KeysAgree(eq, x, y);
      forall i | 0 <= i < |y| ensures Lookup(x, y[i].key).Some? && Same(eq, y[i].value, Lookup(x, y[i].key).value) {
        LookupKey(x, y[i].key);
        var j :| 0 <= j < |x| && x[j] == Pair(y[i].key, Lookup(x, y[i].key).value);
        LookupAt(y, i);
        SameSymmetric(eq, x[j].value, y[i].value);
      }
    case _ =>
  }

  /** A value equals itself exactly when no NaN is in it. */
  lemma {:induction false} SameReflexive(eq: FloatEq, a: Json)
    requires Proper(a)
    ensures Same(eq, a, a) <==> NoNan(eq, a)
    decreases a
  {
    match a
    case Array(x) =>
      forall i | 0 <= i < |x| ensures Same(eq, x[i], x[i]) <==> NoNan(eq, x[i]) { SameReflexive(eq, x[i]); }
    case Object(x) =>
      forall i | 0 <= i < |x|
        ensures Lookup(x, x[i].key) == Some(x[i].value)
        ensures Same(eq, x[i].value, x[i].value) <==> NoNan(eq, x[i].value)
      {
        LookupAt(x, i);
        SameReflexive(eq, x[i].value);
      }
    case _ =>
  }

  lemma {:induction false} SameTransitive(eq: FloatEq, a: Json, b: Json, c: Json)
    requires Transitive(eq) && Same(eq, a, b) && Same(eq, b, c)
    ensures Same(eq, a, c)
    decreases a
  {
    match (a, b)
    case (Array(x), Array(y)) =>
      forall i | 0 <= i < |x| ensures Same(eq, x[i], c.items[i]) { SameTransitive(eq, x[i], y[i], c.items[i]); }
    case (Object(x), Object(y)) =>
      var z := c.pairs;
      forall i | 0 <= i < |x| ensures Lookup(z, x[i].key).Some? && Same(eq, x[i].value, Lookup(z, x[i].key).value) {
        LookupKey(y, x[i].key);
        var j :| 0 <= j < |y| && y[j] == Pair(x[i].key, Lookup(y, x[i].key).value);
        SameTransitive(eq, x[i].value, y[j].value, Lookup(z, y[j].key).value);
      }
    case _ =>
  }

  // ---------------------------------------------------------------------
  // Cloning
  // ---------------------------------------------------------------------

  /** A clone is the same tree, keys in the same order. */
  method Clone(v: Json) returns (copy: Json)
    requires Proper(v)
    ensures copy == v
    decreases v
  {
    match v
    case Array(items) =>
      var out := [];
      for i := 0 to |items|
        invariant out == items[..i]
      {
        var child := Clone(items[i]);
        out := out + [child];
      }
      return Array(out);
    case Object(pairs) =>
      var out := [];
      for i := 0 to |pairs|
        invariant out == pairs[..i]
      {
        var child := Clone(pairs[i].value);
        SetOp(pairs[..i], pairs[i].key, child, i);
        out := SetKey(out, pairs[i].key, child);
      }
      return Object(out);
    case _ => return v;
  }

  /** So a clone compares equal to its source, either way round, unless a NaN is in it. */
  method CloneAndCompare(eq: FloatEq, v: Json) returns (there: bool, back: bool)
    requires Proper(v)
    ensures there == back == NoNan(eq, v)
  {
    var copy := Clone(v);
    SameReflexive(eq, v);
    there := Equal(eq, v, copy);
    back := Equal(eq, copy, v);
  }

  // ---------------------------------------------------------------------
  // Equality, path by path
  // ---------------------------------------------------------------------

  /** One step down a tree: an element of an array or a member of an object. */
  datatype Step = Element(i: nat) | Member(key: string)

  function Reached(v: Json, path: seq<Step>): Option<Json>
    decreases path
  {
    if path == [] then Some(v)
    else
      match (v, path[0])
      case (Array(items), Element(i)) => if i < |items| then Reached(items[i], path[1..]) else None
      case (Object(pairs), Member(key)) =>
        if Lookup(pairs, key).Some? then Reached(Lookup(pairs, key).value, path[1..]) else None
      case _ => None
  }

  /** The same kind of value, and as far as can be seen without going down, the same value. */
  predicate Agree(eq: FloatEq, a: Json, b: Json) {
    (a == b && !a.Array? && !a.Object? && !a.Real?)
    || (a.Real? && b.Real? && eq(a.token, b.token))
    || (a.Array? && b.Array? && |a.items| == |b.items|)
    || (a.Object? && b.Object? && |a.pairs| == |b.pairs|)
  }

  ghost predicate AgreeAt(eq: FloatEq, a: Json, b: Json, path: seq<Step>) {
    Reached(a, path).Some? ==> Reached(b, path).Some? && Agree(eq, Reached(a, path).value, Reached(b, path).value)
  }

  lemma {:induction false} SameReaches(eq: FloatEq, a: Json, b: Json, path: seq<Step>)
    requires Same(eq, a, b)
    ensures AgreeAt(eq, a, b, path)
    decreases path
  {
    if path != [] {
      match (a, path[0]) {
        case (Array(items), Element(i)) => if i < |items| { SameReaches(eq, items[i], b.items[i], path[1..]); }
        case (Object(pairs), Member(key)) =>
          if Lookup(pairs, key).Some? {
            LookupFrom(pairs, key);
            SameReaches(eq, Lookup(pairs, key).value, Lookup(b.pairs, key).value, path[1..]);
          }
        case _ =>
      }
    }
  }

  lemma {:induction false} LookupFrom(pairs: seq<Pair>, key: string)
    requires Lookup(pairs, key).Some?
    ensures exists i :: 0 <= i < |pairs| && pairs[i].key == key && pairs[i].value == Lookup(pairs, key).value
  {
    if pairs[0].key != key {
      LookupFrom(pairs[1..], key);
      var i :| 0 <= i < |pairs[1..]| && pairs[1..][i].key == key && pairs[1..][i].value == Lookup(pairs, key).value;
      assert pairs[i + 1].key == key;
    }
  }

  lemma {:induction false} LookupOf(pairs: seq<Pair>, i: nat)
    requires UniqueKeys(pairs) && i < |pairs|
    ensures Lookup(pairs, pairs[i].key) == Some(pairs[i].value)
  {
    if i > 0 {
      assert forall j, k :: 0 <= j < k < |pairs[1..]| ==> pairs[1..][j].key == pairs[j + 1].key && pairs[1..][k].key == pairs[k + 1].key;
      LookupOf(pairs[1..], i - 1);
    }
  }

  lemma {:induction false} ReachesSame(eq: FloatEq, a: Json, b: Json)
    requires Proper(a) && forall path :: AgreeAt(eq, a, b, path)
    ensures Same(eq, a, b)
    decreases a
  {
    assert AgreeAt(eq, a, b, []);
    match a {
      case Array(items) =>
        forall i | 0 <= i < |items| ensures Same(eq, items[i], b.items[i]) {
          forall path ensures AgreeAt(eq, items[i], b.items[i], path) {
            assert AgreeAt(eq, a, b, [Element(i)] + path);
            assert ([Element(i)] + path)[1..] == path;
          }
          ReachesSame(eq, items[i], b.items[i]);
        }
      case Object(pairs) =>
        forall i | 0 <= i < |pairs|
          ensures Lookup(b.pairs, pairs[i].key).Some? && Same(eq, pairs[i].value, Lookup(b.pairs, pairs[i].key).value)
        {
          var step := Member(pairs[i].key);
          LookupOf(pairs, i);
          assert AgreeAt(eq, a, b, [step]) && [step][1..] == [];
          assert Reached(a, [step]) == Reached(pairs[i].value, []) == Some(pairs[i].value);
          assert Lookup(b.pairs, pairs[i].key).Some?;
          forall path ensures AgreeAt(eq, pairs[i].value, Lookup(b.pairs, pairs[i].key).value, path) {
            assert AgreeAt(eq, a, b, [step] + path);
            assert ([step] + path)[1..] == path;
          }
          ReachesSame(eq, pairs[i].value, Lookup(b.pairs, pairs[i].key).value);
        }
      case _ =>
    }
  }

  /** Two trees are equal exactly when whatever can be reached in the one is there in the other and agrees. */
  lemma SameExactly(eq: FloatEq, a: Json, b: Json)
    requires Proper(a)
    ensures Same(eq, a, b) <==> forall path :: AgreeAt(eq, a, b, path)
  {
    if Same(eq, a, b) {
      forall path ensures AgreeAt(eq, a, b, path) { SameReaches(eq, a, b, path); }
    }
    if forall path :: AgreeAt(eq, a, b, path) { ReachesSame(eq, a, b); }
  }
}
