// The linked structure of a JSON object (modules/utils/src/json.c): nodes that
// are at once in the chain of their hash bucket and in a doubly linked list
// that keeps insertion order. A node's address is a number, memory a map.
module JsonTable {
  import opened Text
  import opened Json
  import opened Arithmetic

  datatype Node = Node(key: string, value: Json, next: Option<nat>, prev: Option<nat>, after: Option<nat>)

  type Nodes = map<nat, Node>

  datatype Table = Table(nodes: Nodes, buckets: seq<Option<nat>>, head: Option<nat>, tail: Option<nat>, count: nat)

  /** The nodes in insertion order and the nodes of each bucket. */
  datatype View = View(order: seq<nat>, chains: seq<seq<nat>>)

  const INITIAL_BUCKETS: nat := 8

  /** djb2 over the bytes of the key, in 64 bits. */
  function Hash(key: string): nat {
    if key == "" then 5381 else (Hash(key[..|key| - 1]) * 33 + key[|key| - 1] as int) % MODULUS_64
  }

  predicate PowerOfTwo(n: nat) { n == 1 || (n > 1 && n % 2 == 0 && PowerOfTwo(n / 2)) }

  /** h & (n - 1), bit by bit. */
  function Mask(h: nat, n: nat): (i: nat)
    requires PowerOfTwo(n)
    ensures i < n
  {
    if n == 1 then 0 else 2 * Mask(h / 2, n / 2) + h % 2
  }

  function Bucket(key: string, n: nat): (b: nat)
    requires PowerOfTwo(n)
    ensures b < n
  {
    Mask(Hash(key), n)
  }

  /** Masking is the remainder, since the bucket count is a power of two. */
  lemma {:induction false} MaskIsRemainder(h: nat, n: nat)
    requires PowerOfTwo(n)
    ensures Mask(h, n) == h % n
  {
    if n > 1 {
      MaskIsRemainder(h / 2, n / 2);
      HalfRemainder(h, n / 2);
    }
  }

  lemma HalfRemainder(h: nat, m: nat)
    requires m > 0
    ensures 2 * (h / 2 % m) + h % 2 == h % (2 * m)
  {
    var q, r := h / 2 / m, h / 2 % m;
    assert h / 2 == m * q + r;
    assert h == 2 * m * q + (2 * r + h % 2);
    Quotient(h, 2 * m, q, 2 * r + h % 2);
  }

  // ---------------------------------------------------------------------
  // What the links must satisfy
  // ---------------------------------------------------------------------

  function IdAt(ids: seq<nat>, i: int): Option<nat> { if 0 <= i < |ids| then Some(ids[i]) else None }

  predicate Distinct(ids: seq<nat>) { forall i, j :: 0 <= i < j < |ids| ==> ids[i] != ids[j] }

  predicate LinkAt(nodes: Nodes, ids: seq<nat>, i: nat) requires i < |ids| {
    ids[i] in nodes && nodes[ids[i]].prev == IdAt(ids, i - 1) && nodes[ids[i]].after == IdAt(ids, i + 1)
  }

  /** The order list, from head to tail and back. */
  predicate Linked(nodes: Nodes, head: Option<nat>, tail: Option<nat>, ids: seq<nat>) {
    && head == IdAt(ids, 0) && tail == IdAt(ids, |ids| - 1)
    && forall i :: 0 <= i < |ids| ==> LinkAt(nodes, ids, i)
  }

  predicate ChainAt(nodes: Nodes, n: nat, b: nat, ids: seq<nat>, i: nat)
    requires PowerOfTwo(n) && i < |ids|
  {
    ids[i] in nodes && nodes[ids[i]].next == IdAt(ids, i + 1) && Bucket(nodes[ids[i]].key, n) == b
  }

  /** A bucket's chain: linked by next, and every node hashed there. */
  predicate Chained(nodes: Nodes, n: nat, b: nat, start: Option<nat>, ids: seq<nat>)
    requires PowerOfTwo(n)
  {
    && start == IdAt(ids, 0) && Distinct(ids)
    && forall i :: 0 <= i < |ids| ==> ChainAt(nodes, n, b, ids, i)
  }

  predicate AllChained(nodes: Nodes, buckets: seq<Option<nat>>, chains: seq<seq<nat>>) {
    && |chains| == |buckets| && PowerOfTwo(|buckets|)
    && forall b :: 0 <= b < |buckets| ==> Chained(nodes, |buckets|, b, buckets[b], chains[b])
  }

  /** Every node is in the chain of its bucket. */
  predicate Covered(nodes: Nodes, chains: seq<seq<nat>>) {
    PowerOfTwo(|chains|) && forall id :: id in nodes ==> id in chains[Bucket(nodes[id].key, |chains|)]
  }

  predicate KeysApart(nodes: Nodes, ids: seq<nat>) {
    && (forall i :: 0 <= i < |ids| ==> ids[i] in nodes)
    && forall i, j :: 0 <= i < j < |ids| ==> nodes[ids[i]].key != nodes[ids[j]].key
  }

  ghost predicate SameIds(nodes: Nodes, ids: seq<nat>) { forall id :: id in nodes <==> id in ids }

  /** The load factor is at most three quarters. */
  predicate Roomy(count: nat, buckets: nat) { buckets >= INITIAL_BUCKETS && count * 4 <= buckets * 3 }

  ghost predicate Valid(t: Table, v: View) {
    && Linked(t.nodes, t.head, t.tail, v.order) && KeysApart(t.nodes, v.order) && SameIds(t.nodes, v.order)
    && t.count == |v.order| && Roomy(t.count, |t.buckets|)
    && AllChained(t.nodes, t.buckets, v.chains) && Covered(t.nodes, v.chains)
  }

  function PairAt(nodes: Nodes, id: nat): Pair {
    if id in nodes then Pair(nodes[id].key, nodes[id].value) else Pair("", Null)
  }

  /** The object's pairs in insertion order. */
  function Pairs(nodes: Nodes, ids: seq<nat>): (p: seq<Pair>)
    ensures |p| == |ids| && forall i :: 0 <= i < |ids| ==> p[i] == PairAt(nodes, ids[i])
  {
    seq(|ids|, i requires 0 <= i < |ids| => PairAt(nodes, ids[i]))
  }

  // ---------------------------------------------------------------------
  // Lookup and removal in an insertion-ordered map
  // ---------------------------------------------------------------------

  function Lookup(pairs: seq<Pair>, key: string): Option<Json> {
    if pairs == [] then None else if pairs[0].key == key then Some(pairs[0].value) else Lookup(pairs[1..], key)
  }

  function RemoveKey(pairs: seq<Pair>, key: string): seq<Pair> {
    if pairs == [] then [] else if pairs[0].key == key then pairs[1..] else [pairs[0]] + RemoveKey(pairs[1..], key)
  }

  /** The first pair with this key, or the length. */
  predicate FirstAt(pairs: seq<Pair>, key: string, k: nat) {
    && k <= |pairs| && (k < |pairs| ==> pairs[k].key == key)
    && forall i :: 0 <= i < k ==> pairs[i].key != key
  }

  lemma {:induction false} LookupOp(pairs: seq<Pair>, key: string, k: nat)
    requires FirstAt(pairs, key, k)
    ensures Lookup(pairs, key) == if k < |pairs| then Some(pairs[k].value) else None
  {
    if pairs != [] && k > 0 { LookupOp(pairs[1..], key, k - 1); }
  }

  lemma {:induction false} SetOp(pairs: seq<Pair>, key: string, value: Json, k: nat)
    requires FirstAt(pairs, key, k)
    ensures SetKey(pairs, key, value) == if k < |pairs| then pairs[k := Pair(key, value)] else pairs + [Pair(key, value)]
  {
    if pairs != [] && k > 0 { SetOp(pairs[1..], key, value, k - 1); }
  }

  lemma {:induction false} RemoveOp(pairs: seq<Pair>, key: string, k: nat)
    requires FirstAt(pairs, key, k)
    ensures RemoveKey(pairs, key) == if k < |pairs| then pairs[..k] + pairs[k + 1..] else pairs
  {
    if pairs != [] && k > 0 { RemoveOp(pairs[1..], key, k - 1); }
  }

  // ---------------------------------------------------------------------
  // How updates keep the links
  // ---------------------------------------------------------------------

  /** The nodes of ids have the same key and next in both. */
  predicate Agree(nodes: Nodes, more: Nodes, ids: seq<nat>) {
    forall i :: 0 <= i < |ids| ==>
      ids[i] in nodes && ids[i] in more && more[ids[i]].next == nodes[ids[i]].next && more[ids[i]].key == nodes[ids[i]].key
  }

  lemma ChainFrame(nodes: Nodes, more: Nodes, n: nat, b: nat, start: Option<nat>, ids: seq<nat>)
    requires PowerOfTwo(n) && Chained(nodes, n, b, start, ids) && Agree(nodes, more, ids)
    ensures Chained(more, n, b, start, ids)
  {
    hide Bucket, PowerOfTwo, IdAt;
    forall i | 0 <= i < |ids| ensures ChainAt(more, n, b, ids, i) {
      assert ChainAt(nodes, n, b, ids, i);
    }
  }

  lemma ChainPush(nodes: Nodes, more: Nodes, n: nat, b: nat, start: Option<nat>, ids: seq<nat>, id: nat)
    requires PowerOfTwo(n) && Chained(nodes, n, b, start, ids) && Agree(nodes, more, ids) && id !in ids
    requires id in more && more[id].next == start && Bucket(more[id].key, n) == b
    ensures Chained(more, n, b, Some(id), [id] + ids)
  {
    hide Bucket, PowerOfTwo;
    var all := [id] + ids;
    forall i | 0 <= i < |all| ensures ChainAt(more, n, b, all, i) {
      if i > 0 {
        assert all[i] == ids[i - 1];
        assert ChainAt(nodes, n, b, ids, i - 1);
      }
    }
  }

  function Without(ids: seq<nat>, k: nat): (r: seq<nat>)
    requires k < |ids|
    ensures |r| == |ids| - 1 && forall i :: 0 <= i < |r| ==> r[i] == ids[if i < k then i else i + 1]
  {
    ids[..k] + ids[k + 1..]
  }

  lemma WithoutAt(ids: seq<nat>, k: nat, i: int)
    requires k < |ids|
    ensures IdAt(Without(ids, k), i) == IdAt(ids, if i < k then i else i + 1)
  {
  }

  lemma WithoutDistinct(ids: seq<nat>, k: nat)
    requires k < |ids| && Distinct(ids)
    ensures Distinct(Without(ids, k)) && ids[k] !in Without(ids, k)
    ensures forall x :: x in Without(ids, k) <==> x in ids && x != ids[k]
  {
    var rest := Without(ids, k);
    forall i, j | 0 <= i < j < |rest| ensures rest[i] != rest[j] {
      assert ids[if i < k then i else i + 1] != ids[if j < k then j else j + 1];
    }
    forall x | x in ids && x != ids[k] ensures x in rest {
      var j :| 0 <= j < |ids| && ids[j] == x;
      assert rest[if j < k then j else j - 1] == x;
    }
    forall i | 0 <= i < |rest| ensures rest[i] != ids[k] {
      assert ids[if i < k then i else i + 1] != ids[k];
    }
  }

  /** A node's memory with one link changed, if there is such a node. */
  function SetNext(nodes: Nodes, id: Option<nat>, next: Option<nat>): Nodes {
    if id.Some? && id.value in nodes then nodes[id.value := nodes[id.value].(next := next)] else nodes
  }

  function SetAfter(nodes: Nodes, id: Option<nat>, after: Option<nat>): Nodes {
    if id.Some? && id.value in nodes then nodes[id.value := nodes[id.value].(after := after)] else nodes
  }

  function SetPrev(nodes: Nodes, id: Option<nat>, prev: Option<nat>): Nodes {
    if id.Some? && id.value in nodes then nodes[id.value := nodes[id.value].(prev := prev)] else nodes
  }

  /** Unlinking the node at k of a chain, and freeing it, keeps the chain of the others. */
  lemma ChainUnlink(nodes: Nodes, n: nat, b: nat, start: Option<nat>, ids: seq<nat>, k: nat)
    requires PowerOfTwo(n) && Chained(nodes, n, b, start, ids) && k < |ids|
    ensures ids[k] in nodes
    ensures Chained(SetNext(nodes, IdAt(ids, k - 1), nodes[ids[k]].next) - {ids[k]}, n, b,
      if k > 0 then start else nodes[ids[k]].next, Without(ids, k))
  {
    assert ChainAt(nodes, n, b, ids, k);
    var more := SetNext(nodes, IdAt(ids, k - 1), nodes[ids[k]].next) - {ids[k]};
    var rest := Without(ids, k);
    WithoutDistinct(ids, k);
    if k > 0 { assert ChainAt(nodes, n, b, ids, k - 1); }
    hide Bucket, PowerOfTwo;
    forall i | 0 <= i < |rest| ensures ChainAt(more, n, b, rest, i) {
      var j := if i < k then i else i + 1;
      assert ChainAt(nodes, n, b, ids, j);
      assert k > 0 ==> (ids[j] == ids[k - 1]) == (j == k - 1);
      WithoutAt(ids, k, i + 1);
    }
    WithoutAt(ids, k, 0);
  }

  /** Memory after a node with these neighbours is taken out of the order list. */
  function Unlinked(nodes: Nodes, prev: Option<nat>, after: Option<nat>): Nodes {
    SetPrev(SetAfter(nodes, prev, after), after, prev)
  }

  lemma UnlinkedNode(nodes: Nodes, ids: seq<nat>, k: nat, j: nat)
    requires Distinct(ids) && k < |ids| && j < |ids| && j != k
    requires ids[j] in nodes && LinkAt(nodes, ids, j)
    ensures var n := Unlinked(nodes, IdAt(ids, k - 1), IdAt(ids, k + 1));
      && ids[j] in n && ids[j] != ids[k]
      && n[ids[j]].after == IdAt(ids, if j + 1 == k then k + 1 else j + 1)
      && n[ids[j]].prev == IdAt(ids, if j == k + 1 then k - 1 else j - 1)
  {
    assert k > 0 ==> (ids[k - 1] == ids[j]) == (k - 1 == j);
    assert k + 1 < |ids| ==> (ids[k + 1] == ids[j]) == (k + 1 == j);
  }

  lemma OrderUnlink(nodes: Nodes, head: Option<nat>, tail: Option<nat>, ids: seq<nat>, k: nat)
    requires Linked(nodes, head, tail, ids) && Distinct(ids) && k < |ids|
    ensures LinkAt(nodes, ids, k)
    ensures Linked(Unlinked(nodes, nodes[ids[k]].prev, nodes[ids[k]].after) - {ids[k]},
      if k > 0 then head else nodes[ids[k]].after, if k + 1 < |ids| then tail else nodes[ids[k]].prev, Without(ids, k))
  {
    assert LinkAt(nodes, ids, k);
    var more := Unlinked(nodes, nodes[ids[k]].prev, nodes[ids[k]].after) - {ids[k]};
    var rest := Without(ids, k);
    forall i | 0 <= i < |rest| ensures LinkAt(more, rest, i) {
      var j := if i < k then i else i + 1;
      assert LinkAt(nodes, ids, j);
      UnlinkedNode(nodes, ids, k, j);
      hide Unlinked, Distinct;
      WithoutAt(ids, k, i + 1);
      WithoutAt(ids, k, i - 1);
    }
    hide Unlinked;
    WithoutAt(ids, k, 0);
    WithoutAt(ids, k, |rest| - 1);
  }

  lemma ApartDistinct(nodes: Nodes, ids: seq<nat>)
    requires KeysApart(nodes, ids)
    ensures Distinct(ids)
  {
  }

  /** Memory after a new node is put at the end of the order list. */
  function Appended(nodes: Nodes, tail: Option<nat>, id: nat, node: Node): Nodes {
    SetAfter(nodes, tail, Some(id))[id := node]
  }

  lemma OrderAppend(nodes: Nodes, head: Option<nat>, tail: Option<nat>, ids: seq<nat>, id: nat, node: Node)
    requires Linked(nodes, head, tail, ids) && Distinct(ids) && id !in nodes && node.prev == tail && node.after == None
    ensures Linked(Appended(nodes, tail, id, node), if head.Some? then head else Some(id), Some(id), ids + [id])
  {
    var more, all := Appended(nodes, tail, id, node), ids + [id];
    forall i | 0 <= i < |all| ensures LinkAt(more, all, i) {
      if i < |ids| {
        assert LinkAt(nodes, ids, i);
        assert i < |ids| - 1 ==> ids[i] != ids[|ids| - 1];
      }
    }
  }
}
