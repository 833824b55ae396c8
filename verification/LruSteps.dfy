/**
 The steps of the cache operations of crates/opsense-mlib/src/lru.rs on the arena as a value, each
 with the invariant it keeps and what it does to the view.
 */
module LruSteps {
  import opened LruArena
  import opened LruList
  import opened LruView
  import opened Wrappers

  // ---------------------------------------------------------------- a new or cleared cache

  function FreshNode<K, V>(i: nat, n: nat): Node<K, V> {
    Node(None, None, if i + 1 < n then i + 1 else NULL, NULL)
  }

  ghost function FreshArena<K, V>(n: nat, shards: nat): Arena<K, V> {
    Arena(seq(n, i requires 0 <= i < n => FreshNode(i, n)), seq(shards, i => Ends(NULL, NULL)),
          if n == 0 then NULL else 0, map[])
  }

  ghost function FreshLists(n: nat, shards: nat): (lists: seq<seq<nat>>)
    ensures |lists| == shards + 1
  {
    seq(shards, i => []) + [seq(n, i requires 0 <= i < n => i)]
  }

  ghost function EmptyView<K, V>(shards: nat): View<K, V> {
    View(seq(shards, i => []), map[])
  }

  lemma FreshOk<K(!new), V>(n: nat, shards: nat, hash: Hash<K>) returns (owner: seq<nat>)
    requires shards > 0 && n <= NULL
    ensures Rep(FreshArena<K, V>(n, shards), hash, FreshLists(n, shards), owner, {})
    ensures Viewable(FreshArena<K, V>(n, shards), FreshLists(n, shards))
    ensures ViewOf(FreshArena<K, V>(n, shards), FreshLists(n, shards)) == EmptyView(shards)
  {
    var c, lists := FreshArena<K, V>(n, shards), FreshLists(n, shards);
    owner := seq(n, i => shards);
    var free := lists[shards];
    forall j: nat | j < |free| ensures FreeLinked(c.nodes, free, j) {
    }
    forall x: nat | x < n ensures Placed(lists, owner, {}, x) {
      assert free[x] == x;
    }
    forall s: nat | s < |lists| ensures Shelved(lists, owner, s) {
      assert s < shards ==> lists[s] == [];
    }
    assert forall s: nat | s < shards :: ShardOk(c, lists, s);
    assert forall x: nat | x < n :: NodeOk(c, hash, owner, x);
    RepViewable(c, hash, lists, owner, {});
    assert ViewOf(c, lists).order == EmptyView<K, V>(shards).order;
  }

  // ---------------------------------------------------------------- use

  /** `get` of a stored key, and the second half of a `put` that updates it. */
  lemma UseStep<K(!new), V>(c: Arena<K, V>, hash: Hash<K>, lists: seq<seq<nat>>, owner: seq<nat>, k: K)
    returns (lists': seq<seq<nat>>)
    requires Rep(c, hash, lists, owner, {}) && k in c.mapping
    ensures var s, x := ShardOf(hash, k, |c.ends|), c.mapping[k];
            && s < |c.ends| && LinksIn(c.nodes, x) && c.ends[s].first < |c.nodes| && c.nodes[x].value.Some?
            && c.nodes[x].key == Some(k)
            && Rep(Touch(c, s, x), hash, lists', owner, {})
            && Viewable(c, lists) && Viewable(Touch(c, s, x), lists')
            && ViewOf(c, lists).vals[k] == c.nodes[x].value.value
            && ViewOf(Touch(c, s, x), lists') == Used(ViewOf(c, lists), s, k)
  {
    var s := ShardOf(hash, k, |c.ends|);
    var j := KeyPlace(c, hash, lists, owner, {}, k);
    TouchOk(c, hash, lists, owner, s, j);
    TouchView(c, hash, lists, owner, s, j, Touch(c, s, lists[s][j]));
    lists' := lists[s := ToFront(lists[s], j)];
  }

  lemma UpdateStep<K(!new), V>(c: Arena<K, V>, hash: Hash<K>, lists: seq<seq<nat>>, owner: seq<nat>, k: K, v: V)
    returns (lists': seq<seq<nat>>)
    requires Rep(c, hash, lists, owner, {}) && k in c.mapping
    ensures c.mapping[k] < |c.nodes|
    ensures var s, x, c1 := ShardOf(hash, k, |c.ends|), c.mapping[k], SetValue(c, c.mapping[k], v);
            && s < |c.ends| && LinksIn(c1.nodes, x) && c1.ends[s].first < |c1.nodes|
            && Rep(Touch(c1, s, x), hash, lists', owner, {})
            && Viewable(c, lists) && Viewable(Touch(c1, s, x), lists')
            && ViewOf(Touch(c1, s, x), lists') == Updated(ViewOf(c, lists), s, k, v)
  {
    var j := KeyPlace(c, hash, lists, owner, {}, k);
    SetValueOk(c, hash, lists, owner, c.mapping[k], v);
    SetValueView(c, hash, lists, owner, k, v);
    lists' := UseStep(SetValue(c, c.mapping[k], v), hash, lists, owner, k);
  }

  // ---------------------------------------------------------------- taking a node

  lemma PopStep<K(!new), V>(c: Arena<K, V>, hash: Hash<K>, lists: seq<seq<nat>>, owner: seq<nat>)
    returns (lists': seq<seq<nat>>, owner': seq<nat>)
    requires Rep(c, hash, lists, owner, {}) && c.free != NULL
    ensures c.free < |c.nodes| && |c.mapping.Keys| < |c.nodes|
    ensures Rep(PopFree(c), hash, lists', owner', {c.free})
    ensures Viewable(c, lists) && Viewable(PopFree(c), lists') && ViewOf(PopFree(c), lists') == ViewOf(c, lists)
  {
    var f := |c.ends|;
    PopFreeOk(c, hash, lists, owner);
    lists', owner' := lists[f := lists[f][1..]], owner[c.free := f + 1];
    FreeView(c, hash, lists, owner, {}, PopFree(c), lists[f][1..]);
  }

  /** A shard is empty exactly when its last link is NULL. */
  lemma EmptyShard<K(!new), V>(c: Arena<K, V>, hash: Hash<K>, lists: seq<seq<nat>>, owner: seq<nat>, s: nat)
    requires Rep(c, hash, lists, owner, {}) && s < |c.ends|
    ensures c.ends[s].last == NULL <==> lists[s] == []
    ensures lists[s] != [] ==> c.ends[s].last < |c.nodes|
    ensures Viewable(c, lists) && (ViewOf(c, lists).order[s] == [] <==> lists[s] == [])
  {
    assert ShardOk(c, lists, s);
    RepViewable(c, hash, lists, owner, {});
    assert lists[s] != [] ==> Linked(c.nodes, lists[s], |lists[s]| - 1);
  }

  lemma LowestShard<K(!new), V>(c: Arena<K, V>, hash: Hash<K>, lists: seq<seq<nat>>, owner: seq<nat>, s: nat)
    requires Rep(c, hash, lists, owner, {}) && s < |c.ends| && c.ends[s].last != NULL
    requires forall t: nat | t < s :: c.ends[t].last == NULL
    ensures Viewable(c, lists) && Lowest(ViewOf(c, lists).order, s)
  {
    EmptyShard(c, hash, lists, owner, s);
    forall t: nat | t < s ensures ViewOf(c, lists).order[t] == [] {
      EmptyShard(c, hash, lists, owner, t);
    }
  }

  /** Nothing free and nothing listed: the arena has no nodes at all. */
  lemma NothingListed<K(!new), V>(c: Arena<K, V>, hash: Hash<K>, lists: seq<seq<nat>>, owner: seq<nat>)
    requires Rep(c, hash, lists, owner, {}) && c.free == NULL && forall s: nat | s < |c.ends| :: c.ends[s].last == NULL
    ensures |c.nodes| == 0
  {
    assert lists[|c.ends|] != [] ==> FreeLinked(c.nodes, lists[|c.ends|], 0);
    forall s: nat | s < |lists| ensures lists[s] == [] {
      if s < |c.ends| {
        EmptyShard(c, hash, lists, owner, s);
      }
    }
    if |c.nodes| > 0 {
      var j := PlaceOf(lists, owner, {}, |c.nodes|, 0);
    }
  }

  /** Nothing free: the cache is full. */
  lemma NothingFree<K(!new), V>(c: Arena<K, V>, hash: Hash<K>, lists: seq<seq<nat>>, owner: seq<nat>)
    requires Rep(c, hash, lists, owner, {}) && c.free == NULL
    ensures |c.mapping.Keys| == |c.nodes|
  {
    assert lists[|c.ends|] != [] ==> FreeLinked(c.nodes, lists[|c.ends|], 0);
  }

  /** The node at position `j` of shard `s` leaves. */
  lemma DetachStep<K(!new), V>(c: Arena<K, V>, hash: Hash<K>, lists: seq<seq<nat>>, owner: seq<nat>, s: nat, j: nat,
                               x: nat, k: K)
    returns (lists': seq<seq<nat>>, owner': seq<nat>)
    requires Rep(c, hash, lists, owner, {}) && s < |c.ends| && j < |lists[s]| && lists[s][j] == x && x < |c.nodes|
             && c.nodes[x].key == Some(k)
    ensures LinksIn(c.nodes, x) && c.nodes[x].value.Some? && k in c.mapping
    ensures Rep(Detach(c, s, x), hash, lists', owner', {x})
    ensures Viewable(c, lists) && Viewable(Detach(c, s, x), lists')
    ensures ViewOf(c, lists).vals[k] == c.nodes[x].value.value
    ensures ViewOf(Detach(c, s, x), lists') == Dropped(ViewOf(c, lists), s, k)
  {
    ListedLive(c, hash, lists, owner, {}, s, j);
    DetachOk(c, hash, lists, owner, s, j);
    DetachView(c, hash, lists, owner, s, j, Detach(c, s, x));
    lists', owner' := lists[s := Cut(lists[s], j)], owner[x := |lists|];
  }

  lemma EvictStep<K(!new), V>(c: Arena<K, V>, hash: Hash<K>, lists: seq<seq<nat>>, owner: seq<nat>, s: nat)
    returns (lists': seq<seq<nat>>, owner': seq<nat>)
    requires Rep(c, hash, lists, owner, {}) && s < |c.ends| && c.ends[s].last != NULL
    ensures var x := c.ends[s].last;
            && LinksIn(c.nodes, x) && c.nodes[x].key.Some? && c.nodes[x].value.Some?
            && Rep(Detach(c, s, x), hash, lists', owner', {x})
            && Viewable(c, lists) && Viewable(Detach(c, s, x), lists')
            && ViewOf(c, lists).order[s] != [] && c.nodes[x].key.value == Oldest(ViewOf(c, lists).order, s)
            && c.nodes[x].key.value in c.mapping
            && ViewOf(c, lists).vals[c.nodes[x].key.value] == c.nodes[x].value.value
            && ViewOf(Detach(c, s, x), lists') == Dropped(ViewOf(c, lists), s, c.nodes[x].key.value)
  {
    EmptyShard(c, hash, lists, owner, s);
    var j := |lists[s]| - 1;
    assert ShardOk(c, lists, s);
    ListedLive(c, hash, lists, owner, {}, s, j);
    lists', owner' := DetachStep(c, hash, lists, owner, s, j, c.ends[s].last, c.nodes[c.ends[s].last].key.value);
  }

  // ---------------------------------------------------------------- giving it to a key, or back

  lemma AttachStep<K(!new), V>(c: Arena<K, V>, hash: Hash<K>, lists: seq<seq<nat>>, owner: seq<nat>, x: nat, k: K, v: V)
    returns (lists': seq<seq<nat>>, owner': seq<nat>)
    requires Rep(c, hash, lists, owner, {x}) && k !in c.mapping
    ensures var s := ShardOf(hash, k, |c.ends|);
            && x < |c.nodes| && s < |c.ends| && (c.ends[s].first != NULL ==> c.ends[s].first < |c.nodes|)
            && Rep(Attach(c, s, x, k, v), hash, lists', owner', {})
            && Viewable(c, lists) && Viewable(Attach(c, s, x, k, v), lists')
            && ViewOf(Attach(c, s, x, k, v), lists') == Inserted(ViewOf(c, lists), s, k, v)
            && Joined(c, s, x, k, v)
  {
    var s := ShardOf(hash, k, |c.ends|);
    AttachOk(c, hash, lists, owner, x, k, v);
    AttachView(c, hash, lists, owner, s, x, k, v, Attach(c, s, x, k, v));
    lists', owner' := lists[s := [x] + lists[s]], owner[x := s];
    JoinedOk(c, hash, lists, owner, s, x, k, v);
  }

  /** Putting the detached node in front is what moving it there does, unless the shard is empty. */
  ghost predicate Joined<K, V>(c: Arena<K, V>, s: nat, x: nat, k: K, v: V)
    requires x < |c.nodes| && s < |c.ends| && (c.ends[s].first != NULL ==> c.ends[s].first < |c.nodes|)
  {
    var nodes := Filled(c.nodes, x, k, v);
    c.ends[s].first != NULL ==>
      && LinksIn(nodes, x)
      && Moved(nodes, c.ends[s], x) == Pushed(nodes, c.ends[s], x)
      && MovedEnds(nodes, c.ends[s], x) == PushedEnds(c.ends[s], x)
  }

  lemma JoinedOk<K(!new), V>(c: Arena<K, V>, hash: Hash<K>, lists: seq<seq<nat>>, owner: seq<nat>, s: nat, x: nat,
                             k: K, v: V)
    requires Rep(c, hash, lists, owner, {x}) && x < |c.nodes| && s < |c.ends|
             && (c.ends[s].first != NULL ==> c.ends[s].first < |c.nodes|)
    ensures Joined(c, s, x, k, v)
  {
    assert x in {x};
    assert ShardOk(c, lists, s) && Placed(lists, owner, {x}, x) && NodeOk(c, hash, owner, x)
      && Shelved(lists, owner, s);
    var nodes := Filled(c.nodes, x, k, v);
    ChainFrame(c.nodes, nodes, lists[s], c.ends[s]);
    if c.ends[s].first != NULL {
      MoveDetached(nodes, lists[s], c.ends[s], x);
    }
  }

  /** The node of a stored key leaves its list. */
  lemma RemoveStep<K(!new), V>(c: Arena<K, V>, hash: Hash<K>, lists: seq<seq<nat>>, owner: seq<nat>, k: K)
    returns (lists': seq<seq<nat>>, owner': seq<nat>)
    requires Rep(c, hash, lists, owner, {}) && k in c.mapping
    ensures var s, x := ShardOf(hash, k, |c.ends|), c.mapping[k];
            && s < |c.ends| && LinksIn(c.nodes, x) && c.nodes[x].key == Some(k) && c.nodes[x].value.Some?
            && Rep(Detach(c, s, x), hash, lists', owner', {x})
            && Viewable(c, lists) && Viewable(Detach(c, s, x), lists')
            && ViewOf(c, lists).vals[k] == c.nodes[x].value.value
            && ViewOf(Detach(c, s, x), lists') == Dropped(ViewOf(c, lists), s, k)
  {
    var j := KeyPlace(c, hash, lists, owner, {}, k);
    lists', owner' := DetachStep(c, hash, lists, owner, ShardOf(hash, k, |c.ends|), j, c.mapping[k], k);
  }

  /** A detached node goes back to the free list. */
  lemma ReturnStep<K(!new), V>(c: Arena<K, V>, hash: Hash<K>, lists: seq<seq<nat>>, owner: seq<nat>, x: nat)
    returns (lists': seq<seq<nat>>, owner': seq<nat>)
    requires Rep(c, hash, lists, owner, {x})
    ensures x < |c.nodes| && Rep(PushFree(c, x), hash, lists', owner', {})
    ensures Viewable(c, lists) && Viewable(PushFree(c, x), lists') && ViewOf(PushFree(c, x), lists') == ViewOf(c, lists)
  {
    var f := |c.ends|;
    PushFreeOk(c, hash, lists, owner, x);
    FreeView(c, hash, lists, owner, {x}, PushFree(c, x), [x] + lists[f]);
    lists', owner' := lists[f := [x] + lists[f]], owner[x := f];
  }
}
