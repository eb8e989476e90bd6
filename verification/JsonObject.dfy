// JSON objects as the code keeps them (modules/utils/src/json.c): set, get,
// remove, merge and the doubling resize, each proved to do to the linked
// structure what it says on an insertion-ordered map.
module JsonObject {
  import opened Text
  import opened Json
  import opened JsonTable

  // ---------------------------------------------------------------------
  // Finding a key
  // ---------------------------------------------------------------------

  /** The place in the bucket's chain of the first node with the key, or the chain's length. */
  ghost predicate FoundAt(nodes: Nodes, chain: seq<nat>, key: string, k: nat) {
    && k <= |chain| && (forall i :: 0 <= i < |chain| ==> chain[i] in nodes)
    && (forall i :: 0 <= i < k ==> nodes[chain[i]].key != key)
    && (k < |chain| ==> nodes[chain[k]].key == key)
  }

  method Walk(t: Table, key: string, ghost chain: seq<nat>) returns (prev: Option<nat>, id: Option<nat>, ghost k: nat)
    requires PowerOfTwo(|t.buckets|)
    requires Chained(t.nodes, |t.buckets|, Bucket(key, |t.buckets|), t.buckets[Bucket(key, |t.buckets|)], chain)
    ensures FoundAt(t.nodes, chain, key, k) && id == IdAt(chain, k) && prev == IdAt(chain, k - 1)
    ensures id.Some? ==> id.value in t.nodes && t.nodes[id.value].key == key
    ensures id.None? ==> forall x :: x in chain ==> t.nodes[x].key != key
  {
    hide PowerOfTwo, Bucket;
    prev, id, k := None, t.buckets[Bucket(key, |t.buckets|)], 0;
    ChainNodes(t.nodes, |t.buckets|, Bucket(key, |t.buckets|), t.buckets[Bucket(key, |t.buckets|)], chain);
    while id.Some? && t.nodes[id.value].key != key
      invariant k <= |chain| && id == IdAt(chain, k) && prev == IdAt(chain, k - 1)
      invariant forall i :: 0 <= i < k ==> t.nodes[chain[i]].key != key
      decreases |chain| - k
    {
      assert t.nodes[chain[k]].next == IdAt(chain, k + 1);
      prev, id, k := id, t.nodes[id.value].next, k + 1;
    }
  }

  /** What the walk found, in terms of the pairs in insertion order. */
  lemma WalkMeans(t: Table, v: View, key: string, k: nat)
    returns (p: nat)
    requires Valid(t, v) && FoundAt(t.nodes, v.chains[Bucket(key, |t.buckets|)], key, k)
    ensures FirstAt(Pairs(t.nodes, v.order), key, p)
    ensures var chain := v.chains[Bucket(key, |t.buckets|)];
      if k < |chain| then p < |v.order| && v.order[p] == chain[k] else p == |v.order|
  {
    var chain := v.chains[Bucket(key, |t.buckets|)];
    hide Linked, AllChained, Roomy, PowerOfTwo, Bucket;
    if k < |chain| {
      assert chain[k] in v.order;
      p :| 0 <= p < |v.order| && v.order[p] == chain[k];
      forall i | 0 <= i < p ensures PairAt(t.nodes, v.order[i]).key != key {
        assert t.nodes[v.order[i]].key != t.nodes[v.order[p]].key;
      }
    } else {
      p := |v.order|;
      forall i | 0 <= i < p ensures PairAt(t.nodes, v.order[i]).key != key {
        var id := v.order[i];
        assert id in v.chains[Bucket(t.nodes[id].key, |v.chains|)];
      }
    }
  }

  // ---------------------------------------------------------------------
  // Resizing
  // ---------------------------------------------------------------------

  /** Only chain links differ. */
  predicate OnlyNext(old_: Nodes, nodes: Nodes) {
    old_.Keys == nodes.Keys && forall id :: id in old_ ==> nodes[id] == old_[id].(next := nodes[id].next)
  }

  /** Midway: moved nodes are in the new chains, the others still linked as before. */
  ghost predicate Moving(before: Nodes, nodes: Nodes, buckets: seq<Option<nat>>, chains: seq<seq<nat>>, moved: set<nat>) {
    && OnlyNext(before, nodes) && AllChained(nodes, buckets, chains)
    && (forall id :: id in before && id !in moved ==> nodes[id].next == before[id].next)
    && (forall c, id :: 0 <= c < |chains| && id in chains[c] ==> id in moved)
    && (forall id :: id in moved ==> id in before && id in chains[Bucket(before[id].key, |chains|)])
  }

  lemma MoveOne(before: Nodes, nodes: Nodes, buckets: seq<Option<nat>>, chains: seq<seq<nat>>, moved: set<nat>, id: nat)
    requires Moving(before, nodes, buckets, chains, moved) && id in before && id !in moved
    ensures var c := Bucket(before[id].key, |chains|);
      Moving(before, nodes[id := nodes[id].(next := buckets[c])], buckets[c := Some(id)],
        chains[c := [id] + chains[c]], moved + {id})
  {
    hide PowerOfTwo, Bucket;
    var n, c := |buckets|, Bucket(before[id].key, |chains|);
    var nodes', buckets', chains' :=
      nodes[id := nodes[id].(next := buckets[c])], buckets[c := Some(id)], chains[c := [id] + chains[c]];
    forall b | 0 <= b < n ensures Chained(nodes', n, b, buckets'[b], chains'[b]) {
      assert Chained(nodes, n, b, buckets[b], chains[b]);
      assert id !in chains[b];
      ChainNodes(nodes, n, b, buckets[b], chains[b]);
      if b == c { ChainPush(nodes, nodes', n, b, buckets[b], chains[b], id); }
      else { ChainFrame(nodes, nodes', n, b, buckets[b], chains[b]); }
    }
    hide AllChained, Chained;
    forall x | x in moved + {id} ensures x in before && x in chains'[Bucket(before[x].key, |chains|)] {
      if x != id { assert x in chains[Bucket(before[x].key, |chains|)]; }
    }
  }

  lemma ChainNodes(nodes: Nodes, n: nat, b: nat, start: Option<nat>, ids: seq<nat>)
    requires PowerOfTwo(n) && Chained(nodes, n, b, start, ids)
    ensures forall i :: 0 <= i < |ids| ==> ids[i] in nodes && nodes[ids[i]].next == IdAt(ids, i + 1)
    ensures forall i :: 0 <= i < |ids| ==> Bucket(nodes[ids[i]].key, n) == b
  {
    hide Bucket, PowerOfTwo, IdAt;
    forall i | 0 <= i < |ids|
      ensures ids[i] in nodes && nodes[ids[i]].next == IdAt(ids, i + 1) && Bucket(nodes[ids[i]].key, n) == b
    {
      assert ChainAt(nodes, n, b, ids, i);
    }
  }

  /** The nodes of the buckets before b and of this part of bucket b. */
  ghost function MovedBy(nodes: Nodes, n: nat, b: nat, part: seq<nat>): set<nat>
    requires PowerOfTwo(n)
  {
    set id | id in nodes && (Bucket(nodes[id].key, n) < b || (Bucket(nodes[id].key, n) == b && id in part))
  }

  lemma MovedNext(nodes: Nodes, n: nat, b: nat, start: Option<nat>, chain: seq<nat>, k: nat)
    requires PowerOfTwo(n) && Chained(nodes, n, b, start, chain) && k < |chain|
    ensures chain[k] in nodes && chain[k] !in MovedBy(nodes, n, b, chain[..k])
    ensures MovedBy(nodes, n, b, chain[..k + 1]) == MovedBy(nodes, n, b, chain[..k]) + {chain[k]}
  {
    ChainNodes(nodes, n, b, start, chain);
    hide Bucket, PowerOfTwo;
    assert chain[..k + 1] == chain[..k] + [chain[k]];
  }

  lemma MovedBucket(nodes: Nodes, buckets: seq<Option<nat>>, chains: seq<seq<nat>>, b: nat)
    requires AllChained(nodes, buckets, chains) && Covered(nodes, chains) && b < |buckets|
    ensures MovedBy(nodes, |buckets|, b, chains[b]) == MovedBy(nodes, |buckets|, b + 1, [])
  {
    assert Chained(nodes, |buckets|, b, buckets[b], chains[b]);
    ChainNodes(nodes, |buckets|, b, buckets[b], chains[b]);
    hide Bucket, PowerOfTwo;
  }

  lemma MovedEnds(nodes: Nodes, n: nat)
    requires PowerOfTwo(n)
    ensures MovedBy(nodes, n, 0, []) == {} && MovedBy(nodes, n, n, []) == nodes.Keys
  {
  }

  /** Moves every node to the front of its chain in a table of n buckets. */
  method Rehash(nodes: Nodes, old_: seq<Option<nat>>, n: nat, ghost chains: seq<seq<nat>>)
    returns (nodes': Nodes, buckets: seq<Option<nat>>, ghost chains': seq<seq<nat>>)
    requires AllChained(nodes, old_, chains) && Covered(nodes, chains) && PowerOfTwo(n)
    ensures |buckets| == n && OnlyNext(nodes, nodes') && AllChained(nodes', buckets, chains') && Covered(nodes', chains')
  {
    nodes', buckets, chains' := nodes, seq(n, _ => None), seq(n, _ => []);
    EmptyChains(nodes, n);
    MovedEnds(nodes, |old_|);
    hide PowerOfTwo, Bucket, Moving, Covered, MovedBy;
    for b := 0 to |old_|
      invariant |buckets| == |chains'| == n
      invariant Moving(nodes, nodes', buckets, chains', MovedBy(nodes, |old_|, b, []))
    {
      var id := old_[b];
      ghost var chain, k := chains[b], 0;
      assert Chained(nodes, |old_|, b, old_[b], chain);
      assert chain[..0] == [];
      while id.Some?
        invariant k <= |chain| && id == IdAt(chain, k) && |buckets| == |chains'| == n
        invariant Moving(nodes, nodes', buckets, chains', MovedBy(nodes, |old_|, b, chain[..k]))
        decreases |chain| - k
      {
        nodes', buckets, chains', id := RehashNode(nodes, nodes', buckets, id.value,
          chains', MovedBy(nodes, |old_|, b, chain[..k])) by { MovedNext(nodes, |old_|, b, old_[b], chain, k); }
        MovedNext(nodes, |old_|, b, old_[b], chain, k);
        ChainNodes(nodes, |old_|, b, old_[b], chain);
        k := k + 1;
      }
      assert chain[..k] == chain;
      MovedBucket(nodes, old_, chains, b);
    }
    MovedAll(nodes, nodes', buckets, chains');
  }

  /** One node, unlinked from its old chain by following next first. */
  method RehashNode(ghost before: Nodes, nodes: Nodes, buckets: seq<Option<nat>>, id: nat,
                    ghost chains: seq<seq<nat>>, ghost moved: set<nat>)
    returns (nodes': Nodes, buckets': seq<Option<nat>>, ghost chains': seq<seq<nat>>, next: Option<nat>)
    requires Moving(before, nodes, buckets, chains, moved) && id in before && id !in moved
    ensures |buckets'| == |buckets| && |chains'| == |chains| && next == before[id].next
    ensures Moving(before, nodes', buckets', chains', moved + {id})
  {
    MoveOne(before, nodes, buckets, chains, moved, id);
    next := nodes[id].next;
    var c := Bucket(nodes[id].key, |buckets|);
    nodes' := nodes[id := nodes[id].(next := buckets[c])];
    buckets' := buckets[c := Some(id)];
    chains' := chains[c := [id] + chains[c]];
  }

  lemma EmptyChains(nodes: Nodes, n: nat)
    requires PowerOfTwo(n)
    ensures Moving(nodes, nodes, seq(n, _ => None), seq(n, _ => []), {})
  {
    hide PowerOfTwo, Bucket;
  }

  lemma MovedAll(before: Nodes, nodes: Nodes, buckets: seq<Option<nat>>, chains: seq<seq<nat>>)
    requires Moving(before, nodes, buckets, chains, before.Keys)
    ensures OnlyNext(before, nodes) && AllChained(nodes, buckets, chains) && Covered(nodes, chains)
  {
    hide PowerOfTwo, Bucket;
  }

  // ---------------------------------------------------------------------
  // The object
  // ---------------------------------------------------------------------

  lemma OnlyNextKeeps(before: Nodes, nodes: Nodes, head: Option<nat>, tail: Option<nat>, ids: seq<nat>)
    requires OnlyNext(before, nodes) && Linked(before, head, tail, ids) && KeysApart(before, ids) && SameIds(before, ids)
    ensures Linked(nodes, head, tail, ids) && KeysApart(nodes, ids) && SameIds(nodes, ids)
    ensures Pairs(nodes, ids) == Pairs(before, ids)
  {
    forall i | 0 <= i < |ids| ensures LinkAt(nodes, ids, i) {
      assert LinkAt(before, ids, i);
    }
  }

  lemma {:induction false} PowerDoubles(n: nat)
    requires PowerOfTwo(n)
    ensures PowerOfTwo(2 * n)
  {
  }

  /** Only values differ. */
  predicate OnlyValues(nodes: Nodes, more: Nodes) {
    nodes.Keys == more.Keys && forall id :: id in nodes ==> more[id] == nodes[id].(value := more[id].value)
  }

  lemma OnlyValuesKeeps(t: Table, v: View, more: Nodes)
    requires Valid(t, v) && OnlyValues(t.nodes, more)
    ensures Valid(t.(nodes := more), v)
  {
    var u := t.(nodes := more);
    hide PowerOfTwo, Bucket, Roomy;
    assert Linked(u.nodes, u.head, u.tail, v.order) by {
      forall i | 0 <= i < |v.order| ensures LinkAt(u.nodes, v.order, i) { assert LinkAt(t.nodes, v.order, i); }
    }
    assert AllChained(u.nodes, u.buckets, v.chains) by {
      forall b | 0 <= b < |u.buckets| ensures Chained(u.nodes, |u.buckets|, b, u.buckets[b], v.chains[b]) {
        assert Chained(t.nodes, |t.buckets|, b, t.buckets[b], v.chains[b]);
        ChainNodes(t.nodes, |t.buckets|, b, t.buckets[b], v.chains[b]);
        ChainFrame(t.nodes, u.nodes, |t.buckets|, b, t.buckets[b], v.chains[b]);
      }
    }
  }

  lemma ReplaceKeeps(t: Table, v: View, p: nat, value: Json)
    requires Valid(t, v) && p < |v.order|
    ensures var id := v.order[p];
      && id in t.nodes
      && var u := t.(nodes := t.nodes[id := t.nodes[id].(value := value)]);
      && Valid(u, v) && Pairs(u.nodes, v.order) == Pairs(t.nodes, v.order)[p := Pair(t.nodes[id].key, value)]
  {
    var id := v.order[p];
    assert id in t.nodes;
    OnlyValuesKeeps(t, v, t.nodes[id := t.nodes[id].(value := value)]);
    ApartDistinct(t.nodes, v.order);
    hide Valid;
    assert forall i :: 0 <= i < |v.order| && i != p ==> v.order[i] != id;
  }

  /** The table after a new node for the key, at the front of its chain and the end of the list. */
  function Inserted(t: Table, id: nat, key: string, value: Json): Table
    requires PowerOfTwo(|t.buckets|)
  {
    var b := Bucket(key, |t.buckets|);
    Table(Appended(t.nodes, t.tail, id, Node(key, value, t.buckets[b], t.tail, None)),
      t.buckets[b := Some(id)], if t.head.Some? then t.head else Some(id), Some(id), t.count + 1)
  }

  function InsertedView(v: View, id: nat, b: nat): View
    requires b < |v.chains|
  {
    View(v.order + [id], v.chains[b := [id] + v.chains[b]])
  }

  lemma InsertChains(t: Table, v: View, id: nat, key: string, value: Json)
    requires Valid(t, v) && id !in t.nodes
    ensures var u, w := Inserted(t, id, key, value), InsertedView(v, id, Bucket(key, |t.buckets|));
      AllChained(u.nodes, u.buckets, w.chains) && Covered(u.nodes, w.chains)
  {
    hide PowerOfTwo, Bucket, Roomy, Linked, KeysApart;
    var u, w := Inserted(t, id, key, value), InsertedView(v, id, Bucket(key, |t.buckets|));
    var n, c := |t.buckets|, Bucket(key, |t.buckets|);
    forall b | 0 <= b < n ensures Chained(u.nodes, n, b, u.buckets[b], w.chains[b]) {
      assert Chained(t.nodes, n, b, t.buckets[b], v.chains[b]);
      ChainNodes(t.nodes, n, b, t.buckets[b], v.chains[b]);
      assert Agree(t.nodes, u.nodes, v.chains[b]);
      if b == c { ChainPush(t.nodes, u.nodes, n, b, t.buckets[b], v.chains[b], id); }
      else { ChainFrame(t.nodes, u.nodes, n, b, t.buckets[b], v.chains[b]); }
    }
    hide AllChained, Chained;
    forall x | x in u.nodes ensures x in w.chains[Bucket(u.nodes[x].key, n)] {
      if x != id {
        assert x in t.nodes && u.nodes[x].key == t.nodes[x].key;
        assert x in v.chains[Bucket(t.nodes[x].key, n)];
      }
    }
  }

  lemma InsertOrder(t: Table, v: View, id: nat, key: string, value: Json)
    requires Valid(t, v) && id !in t.nodes && FirstAt(Pairs(t.nodes, v.order), key, |v.order|)
    ensures var u, ids := Inserted(t, id, key, value), v.order + [id];
      && Linked(u.nodes, u.head, u.tail, ids) && KeysApart(u.nodes, ids) && SameIds(u.nodes, ids)
      && Pairs(u.nodes, ids) == Pairs(t.nodes, v.order) + [Pair(key, value)]
  {
    hide Bucket, Roomy, AllChained, Covered;
    assert PowerOfTwo(|t.buckets|) by { ChainsPower(t, v); }
    var node := Node(key, value, t.buckets[Bucket(key, |t.buckets|)], t.tail, None);
    hide PowerOfTwo;
    ApartDistinct(t.nodes, v.order);
    OrderAppend(t.nodes, t.head, t.tail, v.order, id, node);
    AppendedPairs(t.nodes, t.tail, v.order, id, node);
  }

  lemma ChainsPower(t: Table, v: View)
    requires AllChained(t.nodes, t.buckets, v.chains)
    ensures PowerOfTwo(|t.buckets|)
  {
  }

  lemma AppendedAgrees(nodes: Nodes, tail: Option<nat>, id: nat, node: Node, x: nat)
    ensures var more := Appended(nodes, tail, id, node);
      && (x in more <==> x in nodes || x == id)
      && (x in nodes && x != id ==> more[x] == nodes[x].(after := more[x].after))
      && more[id] == node
  {
  }

  lemma AppendedPairs(nodes: Nodes, tail: Option<nat>, order: seq<nat>, id: nat, node: Node)
    requires id !in nodes && KeysApart(nodes, order) && SameIds(nodes, order) && FirstAt(Pairs(nodes, order), node.key, |order|)
    ensures var more, ids := Appended(nodes, tail, id, node), order + [id];
      && KeysApart(more, ids) && SameIds(more, ids)
      && Pairs(more, ids) == Pairs(nodes, order) + [Pair(node.key, node.value)]
  {
    var more, ids := Appended(nodes, tail, id, node), order + [id];
    hide Appended;
    AppendedAgrees(nodes, tail, id, node, id);
    forall x: nat ensures (x in more <==> x in nodes || x == id) && (x in nodes ==> PairAt(more, x) == PairAt(nodes, x)) {
      AppendedAgrees(nodes, tail, id, node, x);
    }
    forall i, j | 0 <= i < j < |ids| ensures ids[i] in more && ids[j] in more && more[ids[i]].key != more[ids[j]].key {
      assert ids[i] == order[i] && PairAt(more, order[i]) == PairAt(nodes, order[i]);
      if j < |order| {
        assert PairAt(more, order[j]) == PairAt(nodes, order[j]);
      } else {
        assert Pairs(nodes, order)[i].key != node.key;
      }
    }
    assert forall i :: 0 <= i < |ids| ==> ids[i] in more;
  }

  // ---------------------------------------------------------------------
  // Removing
  // ---------------------------------------------------------------------

  /** The table after the node id, which follows prev in its chain, is taken out of both lists. */
  function Removed(t: Table, id: nat, b: nat, prev: Option<nat>): Table
    requires id in t.nodes && b < |t.buckets|
  {
    var node := t.nodes[id];
    Table(Unlinked(SetNext(t.nodes, prev, node.next), node.prev, node.after) - {id},
      if prev.Some? then t.buckets else t.buckets[b := node.next],
      if node.prev.Some? then t.head else node.after, if node.after.Some? then t.tail else node.prev,
      if t.count > 0 then t.count - 1 else 0)
  }

  /** Taking a node out of the order list touches no key and no chain link. */
  lemma UnlinkedAgrees(nodes: Nodes, prev: Option<nat>, after: Option<nat>, id: nat, x: nat)
    ensures var more := Unlinked(nodes, prev, after) - {id};
      && (x in more <==> x in nodes && x != id)
      && (x in more ==> more[x].next == nodes[x].next && more[x].key == nodes[x].key && more[x].value == nodes[x].value)
  {
  }

  lemma SetNextAgrees(nodes: Nodes, prev: Option<nat>, next: Option<nat>, x: nat)
    ensures var more := SetNext(nodes, prev, next);
      && (x in more <==> x in nodes)
      && (x in more ==> more[x] == nodes[x].(next := more[x].next))
      && (x in more && prev != Some(x) ==> more[x].next == nodes[x].next)
  {
  }

  lemma RemoveChains(t: Table, v: View, b: nat, k: nat)
    requires Valid(t, v) && b < |v.chains| && k < |v.chains[b]|
    ensures var id := v.chains[b][k];
      && id in t.nodes
      && var u := Removed(t, id, b, IdAt(v.chains[b], k - 1));
      && var chains := v.chains[b := Without(v.chains[b], k)];
      && AllChained(u.nodes, u.buckets, chains) && Covered(u.nodes, chains)
  {
    var n, ids := |t.buckets|, v.chains[b];
    assert Chained(t.nodes, n, b, t.buckets[b], ids);
    ChainNodes(t.nodes, n, b, t.buckets[b], ids);
    var id, prev := ids[k], IdAt(ids, k - 1);
    var u, chains := Removed(t, id, b, prev), v.chains[b := Without(ids, k)];
    var linked := SetNext(t.nodes, prev, t.nodes[id].next);
    ChainUnlink(t.nodes, n, b, t.buckets[b], ids, k);
    WithoutDistinct(ids, k);
    hide PowerOfTwo, Bucket, Roomy, Linked, KeysApart, Unlinked, SetNext, SameIds;
    forall c | 0 <= c < n ensures Chained(u.nodes, n, c, u.buckets[c], chains[c]) {
      RemoveOneChain(t, v, b, k, c);
    }
    hide AllChained, Chained;
    forall x | x in u.nodes ensures x in chains[Bucket(u.nodes[x].key, n)] {
      UnlinkedAgrees(linked, t.nodes[id].prev, t.nodes[id].after, id, x);
      SetNextAgrees(t.nodes, prev, t.nodes[id].next, x);
      assert x in v.chains[Bucket(t.nodes[x].key, n)];
    }
  }

  lemma RemoveOneChain(t: Table, v: View, b: nat, k: nat, c: nat)
    requires AllChained(t.nodes, t.buckets, v.chains) && b < |v.chains| && k < |v.chains[b]| && c < |v.chains|
    ensures var id := v.chains[b][k];
      && id in t.nodes
      && var u := Removed(t, id, b, IdAt(v.chains[b], k - 1));
      && var chains := v.chains[b := Without(v.chains[b], k)];
      && Chained(u.nodes, |t.buckets|, c, u.buckets[c], chains[c])
  {
    var n, ids := |t.buckets|, v.chains[b];
    assert Chained(t.nodes, n, b, t.buckets[b], ids);
    assert Chained(t.nodes, n, c, t.buckets[c], v.chains[c]);
    ChainNodes(t.nodes, n, b, t.buckets[b], ids);
    ChainNodes(t.nodes, n, c, t.buckets[c], v.chains[c]);
    var id, prev := ids[k], IdAt(ids, k - 1);
    var u, chains := Removed(t, id, b, prev), v.chains[b := Without(ids, k)];
    var linked := SetNext(t.nodes, prev, t.nodes[id].next);
    ChainUnlink(t.nodes, n, b, t.buckets[b], ids, k);
    WithoutDistinct(ids, k);
    hide PowerOfTwo, Bucket, Unlinked, SetNext, AllChained;
    assert b != c ==> id !in v.chains[c] && (k > 0 ==> ids[k - 1] !in v.chains[c]);
    forall i | 0 <= i < |chains[c]|
      ensures var x := chains[c][i];
        && x in u.nodes && (b != c ==> x in t.nodes && u.nodes[x].next == t.nodes[x].next && u.nodes[x].key == t.nodes[x].key)
        && (b == c ==> x in linked - {id} && u.nodes[x].next == linked[x].next && u.nodes[x].key == linked[x].key)
    {
      var x := chains[c][i];
      assert x in v.chains[c] && x != id;
      UnlinkedAgrees(linked, t.nodes[id].prev, t.nodes[id].after, id, x);
      SetNextAgrees(t.nodes, prev, t.nodes[id].next, x);
    }
    if b == c {
      ChainFrame(linked - {id}, u.nodes, n, b, if k > 0 then t.buckets[b] else t.nodes[id].next, chains[b]);
    } else {
      ChainFrame(t.nodes, u.nodes, n, c, t.buckets[c], v.chains[c]);
    }
  }

  lemma RemoveOrder(t: Table, v: View, b: nat, prev: Option<nat>, p: nat)
    requires Valid(t, v) && p < |v.order| && b < |t.buckets|
    ensures var id := v.order[p];
      && id in t.nodes
      && var u, ids := Removed(t, id, b, prev), Without(v.order, p);
      && Linked(u.nodes, u.head, u.tail, ids) && KeysApart(u.nodes, ids) && SameIds(u.nodes, ids)
      && Pairs(u.nodes, ids) == Pairs(t.nodes, v.order)[..p] + Pairs(t.nodes, v.order)[p + 1..]
  {
    hide PowerOfTwo, Bucket, Roomy, AllChained, Covered;
    var id := v.order[p];
    ApartDistinct(t.nodes, v.order);
    RemoveLinked(t, v.order, b, prev, p);
    WithoutDistinct(v.order, p);
    hide Linked;
    var u := Removed(t, id, b, prev);
    forall x: nat ensures (x in u.nodes <==> x in t.nodes && x != id) && (x in u.nodes ==> PairAt(u.nodes, x) == PairAt(t.nodes, x)) {
      RemovedAgrees(t, id, b, prev, x);
    }
    RemovedPairs(t.nodes, u.nodes, v.order, p);
  }

  lemma RemovedAgrees(t: Table, id: nat, b: nat, prev: Option<nat>, x: nat)
    requires id in t.nodes && b < |t.buckets|
    ensures var more := Removed(t, id, b, prev).nodes;
      && (x in more <==> x in t.nodes && x != id) && (x in more ==> PairAt(more, x) == PairAt(t.nodes, x))
  {
    hide Unlinked, SetNext;
    UnlinkedAgrees(SetNext(t.nodes, prev, t.nodes[id].next), t.nodes[id].prev, t.nodes[id].after, id, x);
    SetNextAgrees(t.nodes, prev, t.nodes[id].next, x);
  }

  lemma RemoveLinked(t: Table, order: seq<nat>, b: nat, prev: Option<nat>, p: nat)
    requires Linked(t.nodes, t.head, t.tail, order) && Distinct(order) && p < |order| && b < |t.buckets|
    ensures order[p] in t.nodes
    ensures var u := Removed(t, order[p], b, prev); Linked(u.nodes, u.head, u.tail, Without(order, p))
  {
    var id := order[p];
    assert LinkAt(t.nodes, order, p);
    var linked := SetNext(t.nodes, prev, t.nodes[id].next);
    hide SetNext, Unlinked, Distinct;
    forall i | 0 <= i < |order| ensures LinkAt(linked, order, i) {
      assert LinkAt(t.nodes, order, i);
      SetNextAgrees(t.nodes, prev, t.nodes[id].next, order[i]);
    }
    OrderUnlink(linked, t.head, t.tail, order, p);
    SetNextAgrees(t.nodes, prev, t.nodes[id].next, id);
  }

  lemma RemovedPairs(nodes: Nodes, more: Nodes, order: seq<nat>, p: nat)
    requires p < |order| && Distinct(order) && KeysApart(nodes, order)
    requires forall x: nat :: (x in more <==> x in nodes && x != order[p]) && (x in more ==> PairAt(more, x) == PairAt(nodes, x))
    ensures KeysApart(more, Without(order, p))
    ensures Pairs(more, Without(order, p)) == Pairs(nodes, order)[..p] + Pairs(nodes, order)[p + 1..]
  {
    var ids := Without(order, p);
    forall i | 0 <= i < |ids| ensures ids[i] in more && PairAt(more, ids[i]) == PairAt(nodes, ids[i]) {
      assert ids[i] == order[if i < p then i else i + 1];
    }
    forall i, j | 0 <= i < j < |ids| ensures more[ids[i]].key != more[ids[j]].key {
      assert nodes[order[if i < p then i else i + 1]].key != nodes[order[if j < p then j else j + 1]].key;
      assert PairAt(more, ids[i]) == PairAt(nodes, ids[i]) && PairAt(more, ids[j]) == PairAt(nodes, ids[j]);
    }
  }

  // ---------------------------------------------------------------------
  // The operations
  // ---------------------------------------------------------------------

  lemma RoomForOne(count: nat, n: nat)
    requires PowerOfTwo(n) && n >= INITIAL_BUCKETS && count * 4 < n * 3
    ensures Roomy(count + 1, n)
  {
    assert n % 2 == 0 && n / 2 % 2 == 0;
  }

  function SetAll(pairs: seq<Pair>, more: seq<Pair>): seq<Pair> {
    if more == [] then pairs
    else SetKey(SetAll(pairs, more[..|more| - 1]), more[|more| - 1].key, more[|more| - 1].value)
  }

  /** Setting keys to what they are changes nothing. */
  lemma {:induction false} SetAllSame(pairs: seq<Pair>, n: nat)
    requires n <= |pairs| && UniqueKeys(pairs)
    ensures SetAll(pairs, pairs[..n]) == pairs
  {
    if n > 0 {
      SetAllSame(pairs, n - 1);
      assert pairs[..n][..n - 1] == pairs[..n - 1];
      SetOp(pairs, pairs[n - 1].key, pairs[n - 1].value, n - 1);
    }
  }

  lemma BucketOf(t: Table, v: View, key: string)
    requires Valid(t, v)
    ensures |t.buckets| == |v.chains| && PowerOfTwo(|t.buckets|)
    ensures var b := Bucket(key, |t.buckets|); Chained(t.nodes, |t.buckets|, b, t.buckets[b], v.chains[b])
  {
  }

  lemma GrownRoom(t: Table, v: View)
    requires Valid(t, v)
    ensures t.count * 4 < 2 * |t.buckets| * 3
  {
  }

  lemma FirstKey(nodes: Nodes, order: seq<nat>, key: string, p: nat)
    requires FirstAt(Pairs(nodes, order), key, p) && p < |order| && order[p] in nodes
    ensures nodes[order[p]].key == key
  {
    assert Pairs(nodes, order)[p] == PairAt(nodes, order[p]);
  }

  lemma InsertKeeps(t: Table, v: View, id: nat, key: string, value: Json)
    requires Valid(t, v) && id !in t.nodes && FirstAt(Pairs(t.nodes, v.order), key, |v.order|)
    requires t.count * 4 < |t.buckets| * 3
    ensures var u, w := Inserted(t, id, key, value), InsertedView(v, id, Bucket(key, |t.buckets|));
      Valid(u, w) && Pairs(u.nodes, w.order) == Pairs(t.nodes, v.order) + [Pair(key, value)]
  {
    InsertChains(t, v, id, key, value);
    InsertOrder(t, v, id, key, value);
    RoomForOne(t.count, |t.buckets|);
    hide Linked, KeysApart, SameIds, AllChained, Covered, Appended, Bucket, PowerOfTwo;
  }

  lemma InsertedIds(t: Table, id: nat, key: string, value: Json)
    requires PowerOfTwo(|t.buckets|)
    ensures Inserted(t, id, key, value).nodes.Keys <= t.nodes.Keys + {id}
  {
  }

  lemma RemoveKeeps(t: Table, v: View, b: nat, k: nat, p: nat)
    requires Valid(t, v) && b < |v.chains| && k < |v.chains[b]| && p < |v.order| && v.chains[b][k] == v.order[p]
    ensures var id := v.order[p];
      && id in t.nodes
      && var u := Removed(t, id, b, IdAt(v.chains[b], k - 1));
      && var w := View(Without(v.order, p), v.chains[b := Without(v.chains[b], k)]);
      && Valid(u, w) && Pairs(u.nodes, w.order) == Pairs(t.nodes, v.order)[..p] + Pairs(t.nodes, v.order)[p + 1..]
  {
    RemoveChains(t, v, b, k);
    RemoveOrder(t, v, b, IdAt(v.chains[b], k - 1), p);
    hide Linked, KeysApart, SameIds, AllChained, Covered, Unlinked, SetNext, PowerOfTwo, Pairs;
  }

  lemma OrderOf(t: Table, v: View)
    requires Valid(t, v)
    ensures t.head == IdAt(v.order, 0) && |v.order| == t.count && UniqueKeys(Pairs(t.nodes, v.order))
  {
    hide Linked, SameIds, AllChained, Covered;
    assert t.head == IdAt(v.order, 0) by { HeadOf(t.nodes, t.head, t.tail, v.order); }
    forall i, j | 0 <= i < j < |v.order| ensures Pairs(t.nodes, v.order)[i].key != Pairs(t.nodes, v.order)[j].key {
      assert t.nodes[v.order[i]].key != t.nodes[v.order[j]].key;
    }
  }

  lemma HeadOf(nodes: Nodes, head: Option<nat>, tail: Option<nat>, ids: seq<nat>)
    requires Linked(nodes, head, tail, ids)
    ensures head == IdAt(ids, 0)
  {
  }

  lemma OrderNode(t: Table, v: View, i: nat)
    requires Valid(t, v) && i < |v.order|
    ensures v.order[i] in t.nodes && t.nodes[v.order[i]].after == IdAt(v.order, i + 1)
  {
    assert LinkAt(t.nodes, v.order, i);
  }

  lemma AddressFree(a: seq<nat>, i: nat)
    requires Distinct(a) && i < |a|
    ensures a[i] in a[i..] && a[i] !in a[i + 1..] && forall x :: x in a[i + 1..] ==> x in a[i..]
  {
    assert a[i..] == [a[i]] + a[i + 1..];
  }

  lemma {:induction false} OwnKey(pairs: seq<Pair>, i: nat)
    requires i < |pairs|
    ensures Lookup(pairs, pairs[i].key).Some?
  {
    if i > 0 { OwnKey(pairs[1..], i - 1); }
  }

  class Object {
    var t: Table
    ghost var v: View

    ghost predicate Valid() reads this { JsonTable.Valid(t, v) }

    /** The pairs in insertion order. */
    ghost function Contents(): seq<Pair> reads this { Pairs(t.nodes, v.order) }

    constructor ()
      ensures Valid() && Contents() == []
    {
      t := Table(map[], seq(INITIAL_BUCKETS, _ => None), None, None, 0);
      v := View([], seq(INITIAL_BUCKETS, _ => []));
      new;
      assert PowerOfTwo(4) && PowerOfTwo(INITIAL_BUCKETS);
    }

    method Get(key: string) returns (r: Option<Json>)
      requires Valid()
      ensures r == Lookup(Contents(), key)
    {
      ghost var b := Bucket(key, |t.buckets|);
      assert Chained(t.nodes, |t.buckets|, b, t.buckets[b], v.chains[b]);
      var prev, id;
      ghost var k;
      prev, id, k := Walk(t, key, v.chains[b]);
      ghost var p := WalkMeans(t, v, key, k);
      LookupOp(Contents(), key, p);
      hide JsonTable.Valid, Chained, Bucket;
      r := if id.Some? then Some(t.nodes[id.value].value) else None;
    }

    method Resize()
      requires Valid()
      modifies this
      ensures Valid() && v.order == old(v.order) && Contents() == old(Contents())
      ensures t.nodes.Keys == old(t.nodes.Keys) && t.count == old(t.count) && |t.buckets| == 2 * old(|t.buckets|)
    {
      PowerDoubles(|t.buckets|);
      var nodes, buckets;
      ghost var chains;
      nodes, buckets, chains := Rehash(t.nodes, t.buckets, 2 * |t.buckets|, v.chains);
      OnlyNextKeeps(t.nodes, nodes, t.head, t.tail, v.order);
      hide Linked, KeysApart, SameIds, AllChained, Covered;
      t := t.(nodes := nodes, buckets := buckets);
      v := v.(chains := chains);
    }

    /** address is what malloc returns if a node is needed. */
    method Set(key: string, value: Json, address: nat)
      requires Valid() && address !in t.nodes
      modifies this
      ensures Valid() && Contents() == SetKey(old(Contents()), key, value)
      ensures t.nodes.Keys <= old(t.nodes.Keys) + {address}
      ensures |t.buckets| == if old(t.count) * 4 >= old(|t.buckets|) * 3 then 2 * old(|t.buckets|) else old(|t.buckets|)
      ensures t.count == |Contents()|
      ensures Lookup(old(Contents()), key).Some? ==> v.order == old(v.order) && t.nodes.Keys == old(t.nodes.Keys)
    {
      hide JsonTable.Valid;
      if t.count * 4 >= |t.buckets| * 3 { GrownRoom(t, v); Resize(); }
      ghost var grown := t;
      BucketOf(t, v, key);
      var b := Bucket(key, |t.buckets|);
      ghost var chain := v.chains[b];
      var prev, id;
      ghost var k;
      prev, id, k := Walk(t, key, chain);
      ghost var p := WalkMeans(t, v, key, k);
      hide Chained, Bucket;
      LookupOp(Contents(), key, p);
      SetOp(Contents(), key, value, p);
      if id.Some? {
        ReplaceKeeps(t, v, p, value);
        FirstKey(t.nodes, v.order, key, p);
        t := t.(nodes := t.nodes[id.value := t.nodes[id.value].(value := value)]);
        OrderOf(t, v);
        return;
      }
      InsertKeeps(t, v, address, key, value);
      InsertedIds(t, address, key, value);
      t, v := Inserted(t, address, key, value), InsertedView(v, address, b);
      OrderOf(t, v);
    }

    method Remove(key: string) returns (ok: bool)
      requires Valid()
      modifies this
      ensures Valid() && ok == Lookup(old(Contents()), key).Some? && Contents() == RemoveKey(old(Contents()), key)
    {
      hide JsonTable.Valid;
      BucketOf(t, v, key);
      var b := Bucket(key, |t.buckets|);
      ghost var chain := v.chains[b];
      var prev, id;
      ghost var k;
      prev, id, k := Walk(t, key, chain);
      ghost var p := WalkMeans(t, v, key, k);
      LookupOp(Contents(), key, p);
      RemoveOp(Contents(), key, p);
      if id.None? { return false; }
      hide Chained, Bucket, Removed;
      RemoveKeeps(t, v, b, k, p);
      t := Removed(t, id.value, b, prev);
      v := View(Without(v.order, p), v.chains[b := Without(chain, k)]);
      ok := true;
    }

    /** Also when src is this object: its own pairs are set again. Values are copied. */
    method Merge(src: Object, addresses: seq<nat>)
      requires Valid() && src.Valid() && |addresses| >= src.t.count && Distinct(addresses)
      requires forall a :: a in addresses ==> a !in t.nodes
      modifies this
      ensures Valid() && Contents() == SetAll(old(Contents()), old(src.Contents()))
    {
      hide JsonTable.Valid;
      ghost var mine, theirs, order := Contents(), src.Contents(), src.v.order;
      ghost var ids := t.nodes.Keys;
      ghost var i := 0;
      OrderOf(src.t, src.v);
      var node := src.t.head;
      var used := 0;
      assert theirs[..0] == [];
      while node.Some?
        invariant Valid() && src.Valid() && src.Contents() == theirs && src.v.order == order
        invariant i <= |order| && node == IdAt(order, i) && used == i
        invariant Contents() == SetAll(mine, theirs[..i])
        invariant forall a :: a in addresses[i..] ==> a !in t.nodes
        decreases |order| - i
      {
        OrderOf(src.t, src.v);
        OrderNode(src.t, src.v, i);
        var n := src.t.nodes[node.value];
        assert theirs[i] == Pair(n.key, n.value);
        assert theirs[..i + 1][..i] == theirs[..i];
        AddressFree(addresses, i);
        if src == this {
          OwnKey(theirs, i);
          SetAllSame(theirs, i);
          SetAllSame(theirs, i + 1);
        }
        Set(n.key, n.value, addresses[used]);
        used := used + 1;
        i := i + 1;
        OrderNode(src.t, src.v, i - 1);
        node := src.t.nodes[node.value].after;
      }
      assert theirs[..i] == theirs;
    }
  }
}
