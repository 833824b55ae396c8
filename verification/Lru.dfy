/**
 The sharded cache over one shared arena (crates/opsense-mlib/src/lru.rs with `lru-shared-memory`),
 each public call as one atomic step. The arena, the shard ends, the head of the free list and the
 key map are updated in place.
 */
module Lru {
  import opened LruArena
  import opened LruList
  import opened LruSteps
  import opened LruView
  import opened Wrappers

  class LruCache<K(!new, ==), V> {
    const hash: Hash<K>
    const caching: array<Node<K, V>>
    const shards: array<Ends>
    var freeHead: nat
    var mapping: map<K, nat>
    ghost var lists: seq<seq<nat>>
    ghost var owner: seq<nat>

    ghost function Arena(): Arena<K, V>
      reads this, caching, shards
    {
      LruArena.Arena(caching[..], shards[..], freeHead, mapping)
    }

    /** The free list and the shard lists partition the arena; the key map is a bijection onto the listed nodes. */
    ghost predicate Valid()
      reads this, caching, shards
    {
      Rep(Arena(), hash, lists, owner, {})
    }

    /** The keys of each shard by recency, and the values. */
    ghost function State(): View<K, V>
      requires Viewable(Arena(), lists)
      reads this, caching, shards
    {
      ViewOf(Arena(), lists)
    }

    constructor (capacity: nat, shardCount: nat, h: Hash<K>)
      requires shardCount > 0 && capacity <= NULL
      ensures Valid() && fresh(caching) && fresh(shards)
      ensures hash == h && caching.Length == capacity && shards.Length == shardCount
      ensures Viewable(Arena(), lists) && State() == EmptyView(shardCount)
    {
      hash := h;
      var nodes := new Node<K, V>[capacity](i => FreshNode(i, capacity));
      var ends := new Ends[shardCount](i => Ends(NULL, NULL));
      caching, shards := nodes, ends;
      freeHead, mapping := if capacity == 0 then NULL else 0, map[];
      ghost var o := FreshOk<K, V>(capacity, shardCount, h);
      lists, owner := FreshLists(capacity, shardCount), o;
      assert nodes[..] == FreshArena<K, V>(capacity, shardCount).nodes;
      assert ends[..] == FreshArena<K, V>(capacity, shardCount).ends;
    }

    // ---------------------------------------------------------------- links

    /** Cuts node `index` out of the list of its shard. */
    method UnlinkInsideLock(s: nat, index: nat)
      requires s < shards.Length && LinksIn(caching[..], index)
      modifies caching, shards
      ensures caching[..] == Unlinked(old(caching[..]), index)
      ensures shards[..] == old(shards[..])[s := UnlinkedEnds(old(caching[..]), old(shards[s]), index)]
    {
      var p, n := caching[index].prev, caching[index].next;
      if p != NULL {
        caching[p] := caching[p].(next := n);
      } else {
        shards[s] := shards[s].(first := n);
      }
      if n != NULL {
        caching[n] := caching[n].(prev := p);
      } else {
        shards[s] := shards[s].(last := p);
      }
      caching[index] := caching[index].(prev := NULL, next := NULL);
    }

    method MoveToFrontInsideLock(s: nat, index: nat)
      requires s < shards.Length && LinksIn(caching[..], index)
               && (shards[s].first != NULL ==> shards[s].first < caching.Length)
      modifies caching, shards
      ensures caching[..] == Moved(old(caching[..]), old(shards[s]), index)
      ensures shards[..] == old(shards[..])[s := MovedEnds(old(caching[..]), old(shards[s]), index)]
    {
      if shards[s].first == index || shards[s].first == NULL {
        return;
      }
      var p, n := caching[index].prev, caching[index].next;
      if p != NULL {
        caching[p] := caching[p].(next := n);
      }
      if n != NULL {
        caching[n] := caching[n].(prev := p);
      }
      if index == shards[s].last {
        shards[s] := shards[s].(last := p);
      }
      var oldFirst := shards[s].first;
      caching[index] := caching[index].(next := oldFirst, prev := NULL);
      caching[oldFirst] := caching[oldFirst].(prev := index);
      shards[s] := shards[s].(first := index);
    }

    method FreePop() returns (r: Option<nat>)
      requires freeHead != NULL ==> freeHead < caching.Length
      modifies `freeHead, caching
      ensures r == if old(freeHead) == NULL then None else Some(old(freeHead))
      ensures if r.None? then Arena() == old(Arena()) else Arena() == PopFree(old(Arena()))
    {
      if freeHead == NULL {
        return None;
      }
      var head := freeHead;
      freeHead := caching[head].next;
      caching[head] := caching[head].(next := NULL);
      return Some(head);
    }

    method FreePush(index: nat)
      requires index < caching.Length
      modifies `freeHead, caching
      ensures Arena() == PushFree(old(Arena()), index)
    {
      caching[index] := caching[index].(next := freeHead);
      freeHead := index;
    }

    // ---------------------------------------------------------------- the operations

    method Get(key: K) returns (r: Option<V>)
      requires Valid()
      modifies this, caching, shards
      ensures Valid() && Viewable(Arena(), lists) && Viewable(old(Arena()), old(lists))
      ensures r == if key in old(State()).vals then Some(old(State()).vals[key]) else None
      ensures State() == if key in old(State()).vals then Used(old(State()), ShardOf(hash, key, shards.Length), key)
              else old(State())
    {
      RepViewable(Arena(), hash, lists, owner, {});
      if key !in mapping {
        return None;
      }
      var index := mapping[key];
      ghost var lists' := UseStep(Arena(), hash, lists, owner, key);
      r := caching[index].value;
      MoveToFrontInsideLock(ShardOf(hash, key, shards.Length), index);
      lists := lists';
    }

    /** Node `index` loses its key and value, its place in the list of shard `s` and its entry in the key map. */
    method TakeOut(s: nat, index: nat, key: K)
      requires s < shards.Length && LinksIn(caching[..], index) && caching[index].key == Some(key)
      modifies caching, shards, `mapping
      ensures Arena() == LruArena.Detach(old(Arena()), s, index)
    {
      caching[index] := caching[index].(key := None, value := None);
      UnlinkInsideLock(s, index);
      mapping := mapping - {key};
    }

    /** The least recently used entry of shard `s` leaves the cache; its node is in no list now. */
    method EvictFrom(s: nat) returns (index: nat, evicted: (K, V))
      requires Valid() && s < shards.Length && shards[s].last != NULL
      modifies this, caching, shards
      ensures Rep(Arena(), hash, lists, owner, {index}) && Viewable(Arena(), lists)
              && Viewable(old(Arena()), old(lists))
      ensures old(State()).order[s] != [] && evicted.0 == Oldest(old(State()).order, s)
      ensures evicted.0 in old(State()).vals && old(State()).vals[evicted.0] == evicted.1
      ensures State() == Dropped(old(State()), s, evicted.0)
    {
      ghost var lists', owner' := EvictStep(Arena(), hash, lists, owner, s);
      index := shards[s].last;
      evicted := (caching[index].key.value, caching[index].value.value);
      TakeOut(s, index, evicted.0);
      lists, owner := lists', owner';
    }

    /** A node for a new entry: a free one, or that of the least recently used key of the lowest non-empty shard. */
    method AcquireNode() returns (r: Option<(nat, Option<(K, V)>)>)
      requires Valid()
      modifies this, caching, shards
      ensures Viewable(Arena(), lists) && Viewable(old(Arena()), old(lists))
      ensures r.None? ==> caching.Length == 0 && Valid() && State() == old(State())
      ensures r.Some? ==>
                Rep(Arena(), hash, lists, owner, {r.value.0})
                  && Acquired(old(State()), caching.Length, r.value.1, State())
    {
      RepViewable(Arena(), hash, lists, owner, {});
      if freeHead != NULL {
        ghost var lists', owner' := PopStep(Arena(), hash, lists, owner);
        var idx := FreePop();
        lists, owner := lists', owner';
        return Some((idx.value, None));
      }
      NothingFree(Arena(), hash, lists, owner);
      var i := FirstOccupied();
      if i.None? {
        NothingListed(Arena(), hash, lists, owner);
        return None;
      }
      LowestShard(Arena(), hash, lists, owner, i.value);
      var index, evicted := EvictFrom(i.value);
      assert Oust(old(State()), i.value, evicted.0, evicted.1);
      return Some((index, Some(evicted)));
    }

    /** The first shard, in increasing order, that has a last node. */
    method FirstOccupied() returns (r: Option<nat>)
      ensures r.None? ==> forall t | 0 <= t < shards.Length :: shards[t].last == NULL
      ensures r.Some? ==> r.value < shards.Length && shards[r.value].last != NULL && forall t | 0 <= t < r.value ::
                shards[t].last == NULL
    {
      for i := 0 to shards.Length
        invariant forall t | 0 <= t < i :: shards[t].last == NULL
      {
        if shards[i].last != NULL {
          return Some(i);
        }
      }
      return None;
    }

    /** Stores `value` under `key`; returns the entry that had to go, which the removal callback is given. */
    method Put(key: K, value: V) returns (evicted: Option<(K, V)>)
      requires Valid()
      modifies this, caching, shards
      ensures Valid() && Viewable(Arena(), lists) && Viewable(old(Arena()), old(lists))
      ensures PutSpec(old(State()), hash, caching.Length, key, value, evicted, State())
    {
      RepViewable(Arena(), hash, lists, owner, {});
      if key in mapping {
        Update(key, value);
        return None;
      }
      var node := AcquireNode();
      if node.None? {
        return None;
      }
      Join(node.value.0, key, value);
      return node.value.1;
    }

    /** A stored key takes the new value and becomes the most recently used. */
    method Update(key: K, value: V)
      requires Valid() && key in mapping
      modifies this, caching, shards
      ensures Valid() && Viewable(Arena(), lists) && Viewable(old(Arena()), old(lists))
      ensures State() == Updated(old(State()), ShardOf(hash, key, shards.Length), key, value)
    {
      ghost var lists' := UpdateStep(Arena(), hash, lists, owner, key, value);
      var index := mapping[key];
      caching[index] := caching[index].(value := Some(value));
      MoveToFrontInsideLock(ShardOf(hash, key, shards.Length), index);
      lists := lists';
    }

    /** The node `idx` takes the new entry and becomes the first of its shard. */
    method Join(idx: nat, key: K, value: V)
      requires Rep(Arena(), hash, lists, owner, {idx}) && key !in mapping
      modifies this, caching, shards
      ensures Valid() && Viewable(Arena(), lists) && Viewable(old(Arena()), old(lists))
      ensures State() == Inserted(old(State()), ShardOf(hash, key, shards.Length), key, value)
    {
      var s := ShardOf(hash, key, shards.Length);
      ghost var lists', owner' := AttachStep(Arena(), hash, lists, owner, idx, key, value);
      Fill(s, idx, key, value);
      lists, owner := lists', owner';
    }

    method Fill(s: nat, idx: nat, key: K, value: V)
      requires idx < caching.Length && s < shards.Length
               && (shards[s].first != NULL ==> shards[s].first < caching.Length)
      requires Joined(Arena(), s, idx, key, value)
      modifies caching, shards, `mapping
      ensures Arena() == Attach(old(Arena()), s, idx, key, value)
    {
      caching[idx] := caching[idx].(key := Some(key), value := Some(value));
      mapping := mapping[key := idx];
      if shards[s].first == NULL {
        caching[idx] := caching[idx].(prev := NULL, next := NULL);
        shards[s] := Ends(idx, idx);
      } else {
        MoveToFrontInsideLock(s, idx);
      }
    }

    method Remove(key: K) returns (r: Option<V>)
      requires Valid()
      modifies this, caching, shards
      ensures Valid() && Viewable(Arena(), lists) && Viewable(old(Arena()), old(lists))
      ensures r == if key in old(State()).vals then Some(old(State()).vals[key]) else None
      ensures State() == if key in old(State()).vals
              then Dropped(old(State()), ShardOf(hash, key, shards.Length), key) else old(State())
    {
      RepViewable(Arena(), hash, lists, owner, {});
      if key !in mapping {
        return None;
      }
      var index, value := Detach(ShardOf(hash, key, shards.Length), key);
      GiveBack(index);
      return Some(value);
    }

    /** A stored key leaves the cache; its node is in no list now. */
    method Detach(s: nat, key: K) returns (index: nat, value: V)
      requires Valid() && key in mapping && s == ShardOf(hash, key, shards.Length)
      modifies this, caching, shards
      ensures Rep(Arena(), hash, lists, owner, {index}) && Viewable(Arena(), lists)
              && Viewable(old(Arena()), old(lists))
      ensures value == old(State()).vals[key]
      ensures State() == Dropped(old(State()), s, key)
    {
      ghost var lists', owner' := RemoveStep(Arena(), hash, lists, owner, key);
      index := mapping[key];
      value := caching[index].value.value;
      TakeOut(s, index, key);
      lists, owner := lists', owner';
    }

    /** The node `index` goes to the free list. */
    method GiveBack(index: nat)
      requires Rep(Arena(), hash, lists, owner, {index})
      modifies this, caching
      ensures Valid() && Viewable(Arena(), lists) && Viewable(old(Arena()), old(lists)) && State() == old(State())
    {
      ghost var lists', owner' := ReturnStep(Arena(), hash, lists, owner, index);
      FreePush(index);
      lists, owner := lists', owner';
    }

    /** Back to the state after construction; returns the number of entries. */
    method Clear() returns (removed: nat)
      requires Valid()
      modifies this, caching, shards
      ensures Valid() && Viewable(Arena(), lists) && Viewable(old(Arena()), old(lists))
      ensures State() == EmptyView(shards.Length) && removed == |old(State()).vals.Keys|
    {
      RepViewable(Arena(), hash, lists, owner, {});
      removed := |mapping.Keys|;
      mapping := map[];
      ResetNodes();
      ResetShards();
      freeHead := if caching.Length == 0 then NULL else 0;
      ghost var o := FreshOk<K, V>(caching.Length, shards.Length, hash);
      lists, owner := FreshLists(caching.Length, shards.Length), o;
    }

    method ResetNodes()
      modifies caching
      ensures caching[..] == FreshArena<K, V>(caching.Length, shards.Length).nodes
    {
      var len := caching.Length;
      for index := 0 to len
        invariant forall i | 0 <= i < index :: caching[i] == FreshNode(i, len)
      {
        caching[index] := FreshNode(index, len);
      }
    }

    method ResetShards()
      modifies shards
      ensures shards[..] == FreshArena<K, V>(caching.Length, shards.Length).ends
    {
      for i := 0 to shards.Length
        invariant forall j | 0 <= j < i :: shards[j] == Ends(NULL, NULL)
      {
        shards[i] := Ends(NULL, NULL);
      }
    }
  }
}
