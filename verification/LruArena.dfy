/**
 The state of the shared-arena cache of crates/opsense-mlib/src/lru.rs as a value, its invariant,
 and what the elementary steps do to it. `lists` holds, per shard, the node indices from the most
 to the least recently used, and last the free list; `owner` says in which list a node is. A node
 in `out` is in no list: it is being handed from one to another.
 */
module LruArena {
  import opened Division
  import opened LruList
  import opened Wrappers

  datatype Arena<!K, V> = Arena(nodes: seq<Node<K, V>>, ends: seq<Ends>, free: nat, mapping: map<K, nat>)

  type Hash<!K> = K -> nat

  /** `hash & (S - 1)`, for S a power of two. */
  function ShardOf<K>(hash: Hash<K>, k: K, shards: nat): nat
    requires shards > 0
  {
    hash(k) % shards
  }

  /** With a power of two shards, the low bits of the hash: the rest is a multiple of it. */
  lemma ShardExactly<K>(hash: Hash<K>, k: K, shards: nat, s: nat)
    requires shards > 0
    ensures ShardOf(hash, k, shards) == s <==> s < shards && exists q: nat :: hash(k) == q * shards + s
  {
    RemainderExactly(hash(k), shards, s);
  }

  // ---------------------------------------------------------------- the invariant

  ghost predicate Placed(lists: seq<seq<nat>>, owner: seq<nat>, out: set<nat>, x: nat)
    requires x < |owner|
  {
    owner[x] <= |lists| && (owner[x] == |lists| <==> x in out) && (owner[x] < |lists| ==> x in lists[owner[x]])
  }

  ghost predicate Shelved(lists: seq<seq<nat>>, owner: seq<nat>, s: nat)
    requires s < |lists|
  {
    forall x | x in lists[s] :: x < |owner| && owner[x] == s
  }

  /** The lists and `out` partition the indices below `n`. */
  ghost predicate Partition(lists: seq<seq<nat>>, owner: seq<nat>, out: set<nat>, n: nat) {
    && |owner| == n
    && (forall x: nat {:trigger Placed(lists, owner, out, x)} | x < n :: Placed(lists, owner, out, x))
    && (forall s: nat {:trigger Shelved(lists, owner, s)} | s < |lists| :: Shelved(lists, owner, s))
    && (forall x | x in out :: x < n)
  }

  ghost predicate ShardOk<K, V>(c: Arena<K, V>, lists: seq<seq<nat>>, s: nat)
    requires s < |c.ends| && |lists| == |c.ends| + 1
  {
    Chain(c.nodes, lists[s], c.ends[s])
  }

  ghost predicate Live<K(!new), V>(c: Arena<K, V>, hash: Hash<K>, s: nat, x: nat)
    requires x < |c.nodes| && |c.ends| > 0
  {
    var node := c.nodes[x];
    && node.key.Some? && node.value.Some? && node.key.value in c.mapping && c.mapping[node.key.value] == x
    && ShardOf(hash, node.key.value, |c.ends|) == s
  }

  ghost predicate Blank<K, V>(node: Node<K, V>) {
    node.key.None? && node.value.None? && node.prev == NULL
  }

  /** A listed node carries a key of its shard that maps back to it; any other node is blank. */
  ghost predicate NodeOk<K(!new), V>(c: Arena<K, V>, hash: Hash<K>, owner: seq<nat>, x: nat)
    requires x < |c.nodes| == |owner| && |c.ends| > 0
  {
    if owner[x] < |c.ends| then Live(c, hash, owner[x], x)
    else Blank(c.nodes[x]) && (owner[x] > |c.ends| ==> c.nodes[x].next == NULL)
  }

  ghost predicate KeyOk<K(!new), V>(c: Arena<K, V>, k: K)
    requires k in c.mapping
  {
    c.mapping[k] < |c.nodes| && c.nodes[c.mapping[k]].key == Some(k)
  }

  ghost predicate Rep<K(!new), V>(c: Arena<K, V>, hash: Hash<K>, lists: seq<seq<nat>>, owner: seq<nat>, out: set<nat>) {
    && |c.ends| > 0 && |lists| == |c.ends| + 1 && |c.nodes| <= NULL
    && Partition(lists, owner, out, |c.nodes|)
    && (forall s: nat {:trigger ShardOk(c, lists, s)} | s < |c.ends| :: ShardOk(c, lists, s))
    && FreeChain(c.nodes, lists[|c.ends|], c.free)
    && (forall x: nat {:trigger NodeOk(c, hash, owner, x)} | x < |c.nodes| :: NodeOk(c, hash, owner, x))
    && (forall k {:trigger KeyOk(c, k)} | k in c.mapping :: KeyOk(c, k))
    && |c.mapping.Keys| + |lists[|c.ends|]| + |out| == |c.nodes|
  }

  /** The list that holds `x`, and where. */
  lemma PlaceOf(lists: seq<seq<nat>>, owner: seq<nat>, out: set<nat>, n: nat, x: nat) returns (j: nat)
    requires Partition(lists, owner, out, n) && x < n && x !in out
    ensures owner[x] < |lists| && j < |lists[owner[x]]| && lists[owner[x]][j] == x
  {
    assert Placed(lists, owner, out, x);
    j :| 0 <= j < |lists[owner[x]]| && lists[owner[x]][j] == x;
  }

  /** Nodes of one list are in no other. */
  lemma Elsewhere(lists: seq<seq<nat>>, owner: seq<nat>, out: set<nat>, n: nat, s: nat, t: nat, x: nat)
    requires Partition(lists, owner, out, n) && s < |lists| && t < |lists| && s != t && x in lists[s]
    ensures x !in lists[t] && x !in out && x < n
  {
    assert Shelved(lists, owner, s) && Shelved(lists, owner, t);
    assert x < n ==> Placed(lists, owner, out, x);
  }

  /** Moving `x` from list or `out` to another place. */
  lemma PartitionMoves(lists: seq<seq<nat>>, owner: seq<nat>, out: set<nat>, n: nat, s: nat, list: seq<nat>, x: nat,
                       to: nat, out': set<nat>)
    requires Partition(lists, owner, out, n) && s < |lists| && x < n
    requires (to == s && owner[x] == |lists| && out == {x} && out' == {} && forall y :: y in list <==>
                y in lists[s] || y == x)
          || (to == |lists| && owner[x] == s && out == {} && out' == {x} && forall y :: y in list <==>
                y in lists[s] && y != x)
    ensures Partition(lists[s := list], owner[x := to], out', n)
  {
    var lists', owner' := lists[s := list], owner[x := to];
    forall y: nat | y < n ensures Placed(lists', owner', out', y) {
      assert Placed(lists, owner, out, y);
    }
    forall t: nat | t < |lists'| ensures Shelved(lists', owner', t) {
      assert Shelved(lists, owner, t) && Shelved(lists, owner, s);
      assert Placed(lists, owner, out, x);
    }
  }

  /** The same nodes in another order. */
  lemma PartitionReorders(lists: seq<seq<nat>>, owner: seq<nat>, out: set<nat>, n: nat, s: nat, list: seq<nat>)
    requires Partition(lists, owner, out, n) && s < |lists| && forall y :: y in list <==> y in lists[s]
    ensures Partition(lists[s := list], owner, out, n)
  {
    var lists' := lists[s := list];
    forall y: nat | y < n ensures Placed(lists', owner, out, y) {
      assert Placed(lists, owner, out, y);
    }
    forall t: nat | t < |lists'| ensures Shelved(lists', owner, t) {
      assert Shelved(lists, owner, t) && Shelved(lists, owner, s);
    }
  }

  // ---------------------------------------------------------------- taking and returning free nodes

  ghost function PopFree<K, V>(c: Arena<K, V>): Arena<K, V>
    requires c.free < |c.nodes|
  {
    c.(nodes := SetNext(c.nodes, c.free, NULL), free := c.nodes[c.free].next)
  }

  lemma PopFreeOk<K(!new), V>(c: Arena<K, V>, hash: Hash<K>, lists: seq<seq<nat>>, owner: seq<nat>)
    requires Rep(c, hash, lists, owner, {}) && c.free != NULL
    ensures var f := |c.ends|;
            && c.free < |c.nodes| && lists[f] != []
            && Rep(PopFree(c), hash, lists[f := lists[f][1..]], owner[c.free := f + 1], {c.free})
  {
    var f, x := |c.ends|, c.free;
    PopChain(c.nodes, lists[f], c.free);
    var c', lists', owner' := PopFree(c), lists[f := lists[f][1..]], owner[x := f + 1];
    assert Shelved(lists, owner, f);
    assert lists[f] == [x] + lists[f][1..];
    PartitionMoves(lists, owner, {}, |c.nodes|, f, lists[f][1..], x, f + 1, {x});
    forall s: nat | s < |c'.ends| ensures ShardOk(c', lists', s) {
      assert ShardOk(c, lists, s);
      Elsewhere(lists, owner, {}, |c.nodes|, f, s, x);
      ChainFrame(c.nodes, c'.nodes, lists[s], c.ends[s]);
    }
    forall y: nat | y < |c'.nodes| ensures NodeOk(c', hash, owner', y) {
      assert NodeOk(c, hash, owner, y);
    }
    forall k | k in c'.mapping ensures KeyOk(c', k) {
      assert KeyOk(c, k);
    }
  }

  ghost function PushFree<K, V>(c: Arena<K, V>, x: nat): Arena<K, V>
    requires x < |c.nodes|
  {
    c.(nodes := SetNext(c.nodes, x, c.free), free := x)
  }

  lemma PushFreeOk<K(!new), V>(c: Arena<K, V>, hash: Hash<K>, lists: seq<seq<nat>>, owner: seq<nat>, x: nat)
    requires Rep(c, hash, lists, owner, {x})
    ensures x < |c.nodes|
    ensures var f := |c.ends|; Rep(PushFree(c, x), hash, lists[f := [x] + lists[f]], owner[x := f], {})
  {
    var f := |c.ends|;
    assert x in {x};
    assert Placed(lists, owner, {x}, x) && NodeOk(c, hash, owner, x) && Shelved(lists, owner, f);
    var c', lists', owner' := PushFree(c, x), lists[f := [x] + lists[f]], owner[x := f];
    PushFreeChain(c.nodes, lists[f], c.free, x);
    PartitionMoves(lists, owner, {x}, |c.nodes|, f, [x] + lists[f], x, f, {});
    forall s: nat | s < |c'.ends| ensures ShardOk(c', lists', s) {
      assert ShardOk(c, lists, s) && Shelved(lists, owner, s);
      ChainFrame(c.nodes, c'.nodes, lists[s], c.ends[s]);
    }
    forall y: nat | y < |c'.nodes| ensures NodeOk(c', hash, owner', y) {
      assert NodeOk(c, hash, owner, y);
    }
    forall k | k in c'.mapping ensures KeyOk(c', k) {
      assert KeyOk(c, k);
    }
  }

  // ---------------------------------------------------------------- leaving a shard

  /** Node `x` of shard `s` gives up its key and leaves the list. */
  ghost function Detach<K, V>(c: Arena<K, V>, s: nat, x: nat): Arena<K, V>
    requires LinksIn(c.nodes, x) && s < |c.ends| && c.nodes[x].key.Some?
  {
    c.(nodes := Unlinked(Cleared(c.nodes, x), x), ends := c.ends[s := UnlinkedEnds(c.nodes, c.ends[s], x)],
       mapping := c.mapping - {c.nodes[x].key.value})
  }

  ghost function Cleared<K, V>(nodes: seq<Node<K, V>>, x: nat): (r: seq<Node<K, V>>)
    requires x < |nodes|
    ensures |r| == |nodes|
  {
    nodes[x := nodes[x].(key := None, value := None)]
  }

  lemma DetachOk<K(!new), V>(c: Arena<K, V>, hash: Hash<K>, lists: seq<seq<nat>>, owner: seq<nat>, s: nat, j: nat)
    requires Rep(c, hash, lists, owner, {}) && s < |c.ends| && j < |lists[s]|
    ensures LinksIn(c.nodes, lists[s][j]) && c.nodes[lists[s][j]].key.Some?
    ensures Rep(Detach(c, s, lists[s][j]), hash, lists[s := Cut(lists[s], j)], owner[lists[s][j] := |lists|],
                {lists[s][j]})
    ensures SameContent(Cleared(c.nodes, lists[s][j]), Detach(c, s, lists[s][j]).nodes)
  {
    var x := lists[s][j];
    assert ShardOk(c, lists, s) && Shelved(lists, owner, s);
    LinksInside(c.nodes, lists[s], c.ends[s], j);
    assert NodeOk(c, hash, owner, x);
    var nodes := Cleared(c.nodes, x);
    var c', lists', owner' := Detach(c, s, x), lists[s := Cut(lists[s], j)], owner[x := |lists|];
    ChainFrame(c.nodes, nodes, lists[s], c.ends[s]);
    UnlinkChain(nodes, lists[s], c.ends[s], j);
    CutNoDup(lists[s], j);
    PartitionMoves(lists, owner, {}, |c.nodes|, s, Cut(lists[s], j), x, |lists|, {x});
    OthersKept(c, hash, lists, owner, {}, c'.nodes, s, lists[s]);
    forall t: nat | t < |c'.ends| ensures ShardOk(c', lists', t) {
      assert ShardOk(c, lists, t);
    }
    DetachNodes(c, hash, lists, owner, s, x, c'.nodes);
    DetachKeys(c, c', x);
  }

  /** Writing only nodes of list `s` leaves the other chains alone. */
  lemma OthersKept<K(!new), V>(c: Arena<K, V>, hash: Hash<K>, lists: seq<seq<nat>>, owner: seq<nat>, out: set<nat>,
                               nodes: seq<Node<K, V>>, s: nat, touched: seq<nat>)
    requires Rep(c, hash, lists, owner, out) && s < |c.ends| && |nodes| == |c.nodes|
    requires forall x | x in touched :: x in lists[s] || x in out
    requires forall x | 0 <= x < |nodes| && x !in touched ::
               nodes[x].next == c.nodes[x].next && nodes[x].prev == c.nodes[x].prev
    ensures FreeChain(nodes, lists[|c.ends|], c.free)
    ensures forall t: nat {:trigger lists[t]} | t < |c.ends| && t != s :: Chain(nodes, lists[t], c.ends[t])
  {
    forall t: nat, x | t < |lists| && t != s && x in lists[t] ensures x !in touched {
      Elsewhere(lists, owner, out, |c.nodes|, t, s, x);
    }
    FreeFrame(c.nodes, nodes, lists[|c.ends|], c.free);
    forall t: nat | t < |c.ends| && t != s ensures Chain(nodes, lists[t], c.ends[t]) {
      assert ShardOk(c, lists, t);
      ChainFrame(c.nodes, nodes, lists[t], c.ends[t]);
    }
  }

  lemma DetachNodes<K(!new), V>(c: Arena<K, V>, hash: Hash<K>, lists: seq<seq<nat>>, owner: seq<nat>, s: nat, x: nat,
                                nodes: seq<Node<K, V>>)
    requires Rep(c, hash, lists, owner, {}) && s < |c.ends| && x < |c.nodes| && owner[x] == s && LinksIn(c.nodes, x)
             && c.nodes[x].key.Some?
    requires nodes == Detach(c, s, x).nodes && SameContent(Cleared(c.nodes, x), nodes)
             && SameOutside(Cleared(c.nodes, x), nodes, lists[s])
    requires nodes[x].prev == nodes[x].next == NULL
    ensures var c', owner' := Detach(c, s, x), owner[x := |lists|];
            forall y: nat {:trigger NodeOk(c', hash, owner', y)} | y < |c'.nodes| :: NodeOk(c', hash, owner', y)
  {
    var c', owner' := Detach(c, s, x), owner[x := |lists|];
    assert NodeOk(c, hash, owner, x) && Shelved(lists, owner, s);
    forall y: nat | y < |c'.nodes| ensures NodeOk(c', hash, owner', y) {
      assert NodeOk(c, hash, owner, y);
      assert owner[y] != s ==> nodes[y] == Cleared(c.nodes, x)[y] == c.nodes[y];
      SameNode(c, c', hash, owner, owner', x, y);
    }
  }

  lemma DetachKeys<K(!new), V>(c: Arena<K, V>, c': Arena<K, V>, x: nat)
    requires x < |c.nodes| && |c.nodes| == |c'.nodes| && c.nodes[x].key.Some? && c.nodes[x].key.value in c.mapping
    requires SameContent(Cleared(c.nodes, x), c'.nodes) && c'.mapping == c.mapping - {c.nodes[x].key.value}
    requires forall k {:trigger KeyOk(c, k)} | k in c.mapping :: KeyOk(c, k)
    ensures forall k {:trigger KeyOk(c', k)} | k in c'.mapping :: KeyOk(c', k)
    ensures |c'.mapping.Keys| == |c.mapping.Keys| - 1
  {
    forall k | k in c'.mapping ensures KeyOk(c', k) {
      assert KeyOk(c, k);
    }
    assert c'.mapping.Keys == c.mapping.Keys - {c.nodes[x].key.value};
  }

  /** A node other than `x` stays as it was when the key of `x` goes. */
  lemma SameNode<K(!new), V>(c: Arena<K, V>, c': Arena<K, V>, hash: Hash<K>, owner: seq<nat>, owner': seq<nat>,
                             x: nat, y: nat)
    requires |c.nodes| == |c'.nodes| == |owner| == |owner'| && x < |c.nodes| && y < |c.nodes|
             && |c.ends| == |c'.ends| > 0
    requires NodeOk(c, hash, owner, x) && NodeOk(c, hash, owner, y) && owner[x] < |c.ends|
             && owner' == owner[x := |c.ends| + 1]
    requires c'.mapping == c.mapping - {c.nodes[x].key.value}
    requires if y == x then Blank(c'.nodes[x]) && c'.nodes[x].next == NULL
             else if owner[y] < |c.ends| then c'.nodes[y].key == c.nodes[y].key && c'.nodes[y].value == c.nodes[y].value
             else c'.nodes[y] == c.nodes[y]
    ensures NodeOk(c', hash, owner', y)
  {
  }

  // ---------------------------------------------------------------- joining a shard

  /** The detached node `x` takes a key and becomes the first of its shard. */
  ghost function Attach<K, V>(c: Arena<K, V>, s: nat, x: nat, k: K, v: V): Arena<K, V>
    requires x < |c.nodes| && s < |c.ends| && (c.ends[s].first != NULL ==> c.ends[s].first < |c.nodes|)
  {
    c.(nodes := Pushed(Filled(c.nodes, x, k, v), c.ends[s], x), ends := c.ends[s := PushedEnds(c.ends[s], x)],
       mapping := c.mapping[k := x])
  }

  ghost function Filled<K, V>(nodes: seq<Node<K, V>>, x: nat, k: K, v: V): (r: seq<Node<K, V>>)
    requires x < |nodes|
    ensures |r| == |nodes|
  {
    nodes[x := nodes[x].(key := Some(k), value := Some(v))]
  }

  lemma AttachOk<K(!new), V>(c: Arena<K, V>, hash: Hash<K>, lists: seq<seq<nat>>, owner: seq<nat>, x: nat, k: K, v: V)
    requires Rep(c, hash, lists, owner, {x}) && k !in c.mapping
    ensures var s := ShardOf(hash, k, |c.ends|);
            && x < |c.nodes| && s < |c.ends| && (c.ends[s].first != NULL ==> c.ends[s].first < |c.nodes|)
            && Rep(Attach(c, s, x, k, v), hash, lists[s := [x] + lists[s]], owner[x := s], {})
            && SameContent(Filled(c.nodes, x, k, v), Attach(c, s, x, k, v).nodes)
  {
    var s := ShardOf(hash, k, |c.ends|);
    assert x in {x};
    assert ShardOk(c, lists, s) && Placed(lists, owner, {x}, x) && NodeOk(c, hash, owner, x)
      && Shelved(lists, owner, s);
    var nodes := Filled(c.nodes, x, k, v);
    ChainFrame(c.nodes, nodes, lists[s], c.ends[s]);
    PushChain(nodes, lists[s], c.ends[s], x);
    var c', lists', owner' := Attach(c, s, x, k, v), lists[s := [x] + lists[s]], owner[x := s];
    PartitionMoves(lists, owner, {x}, |c.nodes|, s, [x] + lists[s], x, s, {});
    OthersKept(c, hash, lists, owner, {x}, c'.nodes, s, [x] + lists[s]);
    forall t: nat | t < |c'.ends| ensures ShardOk(c', lists', t) {
      assert ShardOk(c, lists, t);
    }
    AttachNodes(c, hash, lists, owner, s, x, k, v, c'.nodes);
  }

  lemma AttachNodes<K(!new), V>(c: Arena<K, V>, hash: Hash<K>, lists: seq<seq<nat>>, owner: seq<nat>, s: nat, x: nat,
                                k: K, v: V, nodes: seq<Node<K, V>>)
    requires Rep(c, hash, lists, owner, {x}) && k !in c.mapping && x < |c.nodes| && s == ShardOf(hash, k, |c.ends|)
    requires c.ends[s].first != NULL ==> c.ends[s].first < |c.nodes|
    requires nodes == Attach(c, s, x, k, v).nodes && SameContent(Filled(c.nodes, x, k, v), nodes)
             && SameOutside(Filled(c.nodes, x, k, v), nodes, [x] + lists[s])
    ensures var c', owner' := Attach(c, s, x, k, v), owner[x := s];
            && (forall y: nat {:trigger NodeOk(c', hash, owner', y)} | y < |c'.nodes| :: NodeOk(c', hash, owner', y))
            && (forall q {:trigger KeyOk(c', q)} | q in c'.mapping :: KeyOk(c', q))
            && |c'.mapping.Keys| == |c.mapping.Keys| + 1
  {
    var c', owner' := Attach(c, s, x, k, v), owner[x := s];
    assert NodeOk(c, hash, owner, x);
    assert x in {x};
    assert Placed(lists, owner, {x}, x) && Shelved(lists, owner, s);
    forall y: nat | y < |c'.nodes| ensures NodeOk(c', hash, owner', y) {
      assert NodeOk(c, hash, owner, y);
      assert Placed(lists, owner, {x}, y);
    }
    forall q | q in c'.mapping ensures KeyOk(c', q) {
      assert q != k ==> KeyOk(c, q);
    }
    assert c'.mapping.Keys == c.mapping.Keys + {k};
  }

  // ---------------------------------------------------------------- use

  /** Node `x` of shard `s` becomes the most recently used. */
  ghost function Touch<K, V>(c: Arena<K, V>, s: nat, x: nat): Arena<K, V>
    requires LinksIn(c.nodes, x) && s < |c.ends| && (c.ends[s].first != NULL ==> c.ends[s].first < |c.nodes|)
  {
    c.(nodes := Moved(c.nodes, c.ends[s], x), ends := c.ends[s := MovedEnds(c.nodes, c.ends[s], x)])
  }

  lemma TouchOk<K(!new), V>(c: Arena<K, V>, hash: Hash<K>, lists: seq<seq<nat>>, owner: seq<nat>, s: nat, j: nat)
    requires Rep(c, hash, lists, owner, {}) && s < |c.ends| && j < |lists[s]|
    ensures LinksIn(c.nodes, lists[s][j]) && c.ends[s].first < |c.nodes|
    ensures Rep(Touch(c, s, lists[s][j]), hash, lists[s := ToFront(lists[s], j)], owner, {})
    ensures SameContent(c.nodes, Touch(c, s, lists[s][j]).nodes)
  {
    var x := lists[s][j];
    assert ShardOk(c, lists, s);
    MoveChain(c.nodes, lists[s], c.ends[s], j);
    CutNoDup(lists[s], j);
    var c', lists' := Touch(c, s, x), lists[s := ToFront(lists[s], j)];
    PartitionReorders(lists, owner, {}, |c.nodes|, s, ToFront(lists[s], j));
    OthersKept(c, hash, lists, owner, {}, c'.nodes, s, lists[s]);
    forall t: nat | t < |c'.ends| ensures ShardOk(c', lists', t) {
      assert ShardOk(c, lists, t);
    }
    forall y: nat | y < |c'.nodes| ensures NodeOk(c', hash, owner, y) {
      assert NodeOk(c, hash, owner, y);
      assert Placed(lists, owner, {}, y) && Shelved(lists, owner, s);
    }
    forall k | k in c'.mapping ensures KeyOk(c', k) {
      assert KeyOk(c, k);
    }
  }

  ghost function SetValue<K, V>(c: Arena<K, V>, x: nat, v: V): Arena<K, V>
    requires x < |c.nodes|
  {
    c.(nodes := c.nodes[x := c.nodes[x].(value := Some(v))])
  }

  lemma SetValueOk<K(!new), V>(c: Arena<K, V>, hash: Hash<K>, lists: seq<seq<nat>>, owner: seq<nat>, x: nat, v: V)
    requires Rep(c, hash, lists, owner, {}) && x < |c.nodes| && c.nodes[x].key.Some?
    ensures Rep(SetValue(c, x, v), hash, lists, owner, {})
  {
    var c' := SetValue(c, x, v);
    forall s: nat | s < |c'.ends| ensures ShardOk(c', lists, s) {
      assert ShardOk(c, lists, s);
      ChainFrame(c.nodes, c'.nodes, lists[s], c.ends[s]);
    }
    FreeFrame(c.nodes, c'.nodes, lists[|c.ends|], c.free);
    forall y: nat | y < |c'.nodes| ensures NodeOk(c', hash, owner, y) {
      assert NodeOk(c, hash, owner, y);
    }
    forall k | k in c'.mapping ensures KeyOk(c', k) {
      assert KeyOk(c, k);
    }
  }
}
