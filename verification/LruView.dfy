/**
 What the arena of crates/opsense-mlib/src/lru.rs represents: for each shard its keys from the most
 to the least recently used, and the value of every key. The operations on this view are the
 specification of the cache.
 */
module LruView {
  import opened LruArena
  import opened LruList
  import opened Wrappers

  datatype View<!K, V> = View(order: seq<seq<K>>, vals: map<K, V>)

  // ---------------------------------------------------------------- the operations

  /** `s` without the first occurrence of `k`. */
  ghost function Without<K>(s: seq<K>, k: K): seq<K> {
    if s == [] then [] else if s[0] == k then s[1..] else [s[0]] + Without(s[1..], k)
  }

  /** `k` of shard `s` becomes the most recently used. */
  ghost function Used<K, V>(a: View<K, V>, s: nat, k: K): View<K, V>
    requires s < |a.order|
  {
    a.(order := a.order[s := [k] + Without(a.order[s], k)])
  }

  ghost function Dropped<K, V>(a: View<K, V>, s: nat, k: K): View<K, V>
    requires s < |a.order|
  {
    View(a.order[s := Without(a.order[s], k)], a.vals - {k})
  }

  ghost function Inserted<K, V>(a: View<K, V>, s: nat, k: K, v: V): View<K, V>
    requires s < |a.order|
  {
    View(a.order[s := [k] + a.order[s]], a.vals[k := v])
  }

  /** The lowest-numbered non-empty shard. */
  ghost predicate Lowest<K>(order: seq<seq<K>>, s: nat) {
    s < |order| && order[s] != [] && forall t | 0 <= t < s :: order[t] == []
  }

  /** The least recently used key of shard `s`. */
  ghost function Oldest<K>(order: seq<seq<K>>, s: nat): K
    requires s < |order| && order[s] != []
  {
    order[s][|order[s]| - 1]
  }

  /** What `acquire_node` does: nothing while there is room, else the oldest key of the lowest non-empty shard goes. */
  ghost predicate Acquired<K(!new), V>(a: View<K, V>, capacity: nat, evicted: Option<(K, V)>, b: View<K, V>) {
    match evicted
    case None => |a.vals.Keys| < capacity && b == a
    case Some((k, v)) => |a.vals.Keys| == capacity && exists s :: Oust(a, s, k, v) && b == Dropped(a, s, k)
  }

  /** The entry `(k, v)` is the oldest of shard `s`, the lowest that is not empty. */
  ghost predicate Oust<K(!new), V>(a: View<K, V>, s: nat, k: K, v: V) {
    Lowest(a.order, s) && k == Oldest(a.order, s) && k in a.vals && a.vals[k] == v
  }

  ghost function Updated<K, V>(a: View<K, V>, s: nat, k: K, v: V): View<K, V>
    requires s < |a.order|
  {
    Used(a.(vals := a.vals[k := v]), s, k)
  }

  /** What `put` does. */
  ghost predicate PutSpec<K(!new), V>(a: View<K, V>, hash: Hash<K>, capacity: nat, k: K, v: V,
                                      evicted: Option<(K, V)>, b: View<K, V>) {
    && |a.order| > 0
    && var s := ShardOf(hash, k, |a.order|);
       if k in a.vals then evicted.None? && b == Updated(a, s, k, v)
       else if capacity == 0 then evicted.None? && b == a
       else
         match evicted
         case None => |a.vals.Keys| < capacity && b == Inserted(a, s, k, v)
         case Some((ek, ev)) => |a.vals.Keys| == capacity && exists t ::
             Oust(a, t, ek, ev) && b == Inserted(Dropped(a, t, ek), s, k, v)
  }

  /** Keys are listed once, in their own shard, and exactly those with a value are listed. */
  ghost predicate Consistent<K(!new), V>(a: View<K, V>, hash: Hash<K>) {
    && |a.order| > 0
    && (forall s {:trigger a.order[s]} | 0 <= s < |a.order| :: NoDup(a.order[s]))
    && (forall s, k | 0 <= s < |a.order| :: k in a.order[s] <==> k in a.vals && ShardOf(hash, k, |a.order|) == s)
  }

  // ---------------------------------------------------------------- the view of an arena

  ghost predicate Keyed<K, V>(nodes: seq<Node<K, V>>, list: seq<nat>) {
    forall j | 0 <= j < |list| :: list[j] < |nodes| && nodes[list[j]].key.Some?
  }

  ghost function KeysOf<K, V>(nodes: seq<Node<K, V>>, list: seq<nat>): (r: seq<K>)
    requires Keyed(nodes, list)
    ensures |r| == |list| && forall j | 0 <= j < |list| :: r[j] == nodes[list[j]].key.value
  {
    seq(|list|, j requires 0 <= j < |list| => nodes[list[j]].key.value)
  }

  ghost predicate Viewable<K, V>(c: Arena<K, V>, lists: seq<seq<nat>>) {
    && |lists| == |c.ends| + 1
    && (forall s: nat {:trigger lists[s]} | s < |c.ends| :: Keyed(c.nodes, lists[s]))
    && (forall k | k in c.mapping :: c.mapping[k] < |c.nodes| && c.nodes[c.mapping[k]].value.Some?)
  }

  ghost function ViewOf<K(!new), V>(c: Arena<K, V>, lists: seq<seq<nat>>): (a: View<K, V>)
    requires Viewable(c, lists)
    ensures |a.order| == |c.ends| && a.vals.Keys == c.mapping.Keys
  {
    View(seq(|c.ends|, s requires 0 <= s < |c.ends| => KeysOf(c.nodes, lists[s])),
         map k | k in c.mapping :: c.nodes[c.mapping[k]].value.value)
  }

  lemma RepViewable<K(!new), V>(c: Arena<K, V>, hash: Hash<K>, lists: seq<seq<nat>>, owner: seq<nat>, out: set<nat>)
    requires Rep(c, hash, lists, owner, out)
    ensures Viewable(c, lists)
  {
    forall s: nat | s < |c.ends| ensures Keyed(c.nodes, lists[s]) {
      forall j | 0 <= j < |lists[s]| ensures lists[s][j] < |c.nodes| && c.nodes[lists[s][j]].key.Some? {
        ListedLive(c, hash, lists, owner, out, s, j);
      }
    }
    forall k | k in c.mapping ensures c.mapping[k] < |c.nodes| && c.nodes[c.mapping[k]].value.Some? {
      var j := KeyPlace(c, hash, lists, owner, out, k);
    }
  }

  lemma ListedLive<K(!new), V>(c: Arena<K, V>, hash: Hash<K>, lists: seq<seq<nat>>, owner: seq<nat>, out: set<nat>,
                               s: nat, j: nat)
    requires Rep(c, hash, lists, owner, out) && s < |c.ends| && j < |lists[s]|
    ensures lists[s][j] < |c.nodes| && Live(c, hash, s, lists[s][j])
  {
    assert Shelved(lists, owner, s);
    assert lists[s][j] in lists[s];
    assert NodeOk(c, hash, owner, lists[s][j]);
  }

  /** Where the node of a stored key is. */
  lemma KeyPlace<K(!new), V>(c: Arena<K, V>, hash: Hash<K>, lists: seq<seq<nat>>, owner: seq<nat>, out: set<nat>, k: K)
    returns (j: nat)
    requires Rep(c, hash, lists, owner, out) && k in c.mapping
    ensures var s := ShardOf(hash, k, |c.ends|);
            && s < |c.ends| && j < |lists[s]| && lists[s][j] == c.mapping[k] < |c.nodes|
            && c.nodes[c.mapping[k]].key == Some(k) && c.nodes[c.mapping[k]].value.Some?
  {
    assert KeyOk(c, k);
    var x := c.mapping[k];
    assert NodeOk(c, hash, owner, x) && Placed(lists, owner, out, x);
    j := PlaceOf(lists, owner, out, |c.nodes|, x);
  }

  lemma KeysDistinct<K(!new), V>(c: Arena<K, V>, hash: Hash<K>, lists: seq<seq<nat>>, owner: seq<nat>, out: set<nat>,
                                 s: nat)
    requires Rep(c, hash, lists, owner, out) && s < |c.ends| && Keyed(c.nodes, lists[s])
    ensures NoDup(KeysOf(c.nodes, lists[s]))
  {
    var ks := KeysOf(c.nodes, lists[s]);
    assert ShardOk(c, lists, s);
    forall i, j | 0 <= i < j < |ks| ensures ks[i] != ks[j] {
      ListedLive(c, hash, lists, owner, out, s, i);
      ListedLive(c, hash, lists, owner, out, s, j);
    }
  }

  /** Every reachable view is consistent: the key map is a bijection onto the listed nodes. */
  lemma RepConsistent<K(!new), V>(c: Arena<K, V>, hash: Hash<K>, lists: seq<seq<nat>>, owner: seq<nat>, out: set<nat>)
    requires Rep(c, hash, lists, owner, out)
    ensures Viewable(c, lists) && Consistent(ViewOf(c, lists), hash)
  {
    RepViewable(c, hash, lists, owner, out);
    var a := ViewOf(c, lists);
    forall s | 0 <= s < |a.order| ensures NoDup(a.order[s]) {
      KeysDistinct(c, hash, lists, owner, out, s);
    }
    forall s, k | 0 <= s < |a.order| ensures k in a.order[s] <==> k in a.vals && ShardOf(hash, k, |a.order|) == s {
      if k in a.order[s] {
        var j :| 0 <= j < |a.order[s]| && a.order[s][j] == k;
        ListedLive(c, hash, lists, owner, out, s, j);
      }
      if k in a.vals {
        var j := KeyPlace(c, hash, lists, owner, out, k);
        assert KeysOf(c.nodes, lists[ShardOf(hash, k, |c.ends|)])[j] == k;
      }
    }
  }

  lemma {:induction false} WithoutAt<K>(s: seq<K>, j: nat)
    requires NoDup(s) && j < |s|
    ensures Without(s, s[j]) == Cut(s, j)
  {
    if j > 0 {
      assert NoDup(s[1..]);
      WithoutAt(s[1..], j - 1);
      assert Cut(s, j) == [s[0]] + Cut(s[1..], j - 1);
    } else {
      assert Cut(s, 0) == s[1..];
    }
  }

  // ---------------------------------------------------------------- the steps as seen from outside

  /** Two arenas with the same keys and mapping on the listed nodes have the same order. */
  lemma SameKeys<K(!new), V>(a: seq<Node<K, V>>, b: seq<Node<K, V>>, list: seq<nat>)
    requires Keyed(a, list) && |a| == |b| && forall x | x in list :: x < |a| && a[x].key == b[x].key
    ensures Keyed(b, list) && KeysOf(a, list) == KeysOf(b, list)
  {
  }

  lemma KeysCut<K(!new), V>(a: seq<Node<K, V>>, b: seq<Node<K, V>>, list: seq<nat>, j: nat)
    requires Keyed(a, list) && |a| == |b| && NoDup(KeysOf(a, list)) && j < |list|
    requires forall i | 0 <= i < |list| && i != j :: a[list[i]].key == b[list[i]].key
    ensures Keyed(b, Cut(list, j)) && KeysOf(b, Cut(list, j)) == Without(KeysOf(a, list), KeysOf(a, list)[j])
  {
    var c, ks := Cut(list, j), KeysOf(a, list);
    forall i | 0 <= i < |c| ensures c[i] < |b| && b[c[i]].key == Some(Cut(ks, j)[i]) {
      assert c[i] == list[if i < j then i else i + 1];
    }
    WithoutAt(ks, j);
    assert KeysOf(b, c) == Cut(ks, j);
  }

  ghost predicate Agree<K(!new), V>(c: Arena<K, V>, c': Arena<K, V>, lists: seq<seq<nat>>, t: nat)
    requires t < |lists|
  {
    Keyed(c.nodes, lists[t]) && Keyed(c'.nodes, lists[t]) && KeysOf(c'.nodes, lists[t]) == KeysOf(c.nodes, lists[t])
  }

  /** Only the list of shard `s` has changed. */
  lemma OrderReplaced<K(!new), V>(c: Arena<K, V>, c': Arena<K, V>, lists: seq<seq<nat>>, s: nat, list: seq<nat>)
    requires Viewable(c, lists) && |c'.ends| == |c.ends| && s < |c.ends| && Keyed(c'.nodes, list)
    requires forall t: nat {:trigger Agree(c, c', lists, t)} | t < |c.ends| && t != s :: Agree(c, c', lists, t)
    requires forall k | k in c'.mapping :: c'.mapping[k] < |c'.nodes| && c'.nodes[c'.mapping[k]].value.Some?
    ensures Viewable(c', lists[s := list])
    ensures ViewOf(c', lists[s := list]).order == ViewOf(c, lists).order[s := KeysOf(c'.nodes, list)]
  {
    var lists' := lists[s := list];
    forall t: nat | t < |c'.ends| ensures Keyed(c'.nodes, lists'[t]) {
      assert t != s ==> Agree(c, c', lists, t);
    }
    var a, b := ViewOf(c, lists), ViewOf(c', lists');
    forall t: nat | t < |c.ends| && t != s ensures b.order[t] == a.order[t] {
      assert Agree(c, c', lists, t);
    }
  }

  lemma TouchView<K(!new), V>(c: Arena<K, V>, hash: Hash<K>, lists: seq<seq<nat>>, owner: seq<nat>, s: nat, j: nat,
                              c': Arena<K, V>)
    requires Rep(c, hash, lists, owner, {}) && s < |c.ends| && j < |lists[s]|
    requires |c'.ends| == |c.ends| && c'.mapping == c.mapping && SameContent(c.nodes, c'.nodes)
    ensures Viewable(c, lists) && Viewable(c', lists[s := ToFront(lists[s], j)])
    ensures lists[s][j] < |c.nodes| && c.nodes[lists[s][j]].key.Some?
    ensures ViewOf(c', lists[s := ToFront(lists[s], j)]) == Used(ViewOf(c, lists), s, c.nodes[lists[s][j]].key.value)
  {
    RepViewable(c, hash, lists, owner, {});
    KeysDistinct(c, hash, lists, owner, {}, s);
    var list, list' := lists[s], ToFront(lists[s], j);
    KeysCut(c.nodes, c'.nodes, list, j);
    assert KeysOf(c'.nodes, list') == [c.nodes[list[j]].key.value] + KeysOf(c'.nodes, Cut(list, j));
    forall t: nat | t < |c.ends| && t != s ensures Agree(c, c', lists, t) {
      SameKeys(c.nodes, c'.nodes, lists[t]);
    }
    OrderReplaced(c, c', lists, s, list');
  }

  lemma DetachAgree<K(!new), V>(c: Arena<K, V>, hash: Hash<K>, lists: seq<seq<nat>>, owner: seq<nat>, s: nat, j: nat,
                                c': Arena<K, V>)
    requires Rep(c, hash, lists, owner, {}) && Viewable(c, lists) && s < |c.ends| && j < |lists[s]|
    requires lists[s][j] < |c.nodes| && c.nodes[lists[s][j]].key.Some?
    requires c'.mapping == c.mapping - {c.nodes[lists[s][j]].key.value}
             && SameContent(Cleared(c.nodes, lists[s][j]), c'.nodes)
    ensures forall t: nat {:trigger Agree(c, c', lists, t)} | t < |c.ends| && t != s :: Agree(c, c', lists, t)
    ensures forall k | k in c'.mapping :: c'.mapping[k] != lists[s][j] && c'.mapping[k] < |c.nodes|
  {
    var x := lists[s][j];
    forall t: nat | t < |c.ends| && t != s ensures Agree(c, c', lists, t) {
      forall y | y in lists[t] ensures y != x && y < |c.nodes| {
        Elsewhere(lists, owner, {}, |c.nodes|, t, s, y);
      }
      SameKeys(c.nodes, c'.nodes, lists[t]);
    }
    forall k | k in c'.mapping ensures c'.mapping[k] != x && c'.mapping[k] < |c.nodes| {
      assert KeyOk(c, k);
    }
  }

  lemma DetachView<K(!new), V>(c: Arena<K, V>, hash: Hash<K>, lists: seq<seq<nat>>, owner: seq<nat>, s: nat, j: nat,
                               c': Arena<K, V>)
    requires Rep(c, hash, lists, owner, {}) && s < |c.ends| && j < |lists[s]|
    requires lists[s][j] < |c.nodes| && c.nodes[lists[s][j]].key.Some?
    requires |c'.ends| == |c.ends| && c'.mapping == c.mapping - {c.nodes[lists[s][j]].key.value}
    requires SameContent(Cleared(c.nodes, lists[s][j]), c'.nodes)
    ensures Viewable(c, lists) && Viewable(c', lists[s := Cut(lists[s], j)])
    ensures ViewOf(c', lists[s := Cut(lists[s], j)]) == Dropped(ViewOf(c, lists), s, c.nodes[lists[s][j]].key.value)
  {
    RepViewable(c, hash, lists, owner, {});
    KeysDistinct(c, hash, lists, owner, {}, s);
    var x := lists[s][j];
    assert ShardOk(c, lists, s);
    KeysCut(c.nodes, c'.nodes, lists[s], j);
    DetachAgree(c, hash, lists, owner, s, j, c');
    OrderReplaced(c, c', lists, s, Cut(lists[s], j));
    assert ViewOf(c', lists[s := Cut(lists[s], j)]).vals == ViewOf(c, lists).vals - {c.nodes[x].key.value};
  }

  lemma AttachView<K(!new), V>(c: Arena<K, V>, hash: Hash<K>, lists: seq<seq<nat>>, owner: seq<nat>, s: nat, x: nat,
                               k: K, v: V, c': Arena<K, V>)
    requires Rep(c, hash, lists, owner, {x}) && s < |c.ends| && x < |c.nodes| && k !in c.mapping
    requires |c'.ends| == |c.ends| && c'.mapping == c.mapping[k := x] && SameContent(Filled(c.nodes, x, k, v), c'.nodes)
    ensures Viewable(c, lists) && Viewable(c', lists[s := [x] + lists[s]])
    ensures ViewOf(c', lists[s := [x] + lists[s]]) == Inserted(ViewOf(c, lists), s, k, v)
  {
    RepViewable(c, hash, lists, owner, {x});
    assert x in {x};
    assert Placed(lists, owner, {x}, x) && NodeOk(c, hash, owner, x);
    forall t: nat | t < |c.ends| ensures Agree(c, c', lists, t) {
      assert Shelved(lists, owner, t);
      SameKeys(c.nodes, c'.nodes, lists[t]);
    }
    assert Agree(c, c', lists, s);
    assert KeysOf(c'.nodes, [x] + lists[s]) == [k] + KeysOf(c.nodes, lists[s]);
    forall q | q in c.mapping ensures c.mapping[q] != x && c.mapping[q] < |c.nodes| {
      assert KeyOk(c, q);
    }
    OrderReplaced(c, c', lists, s, [x] + lists[s]);
    assert ViewOf(c', lists[s := [x] + lists[s]]).vals == ViewOf(c, lists).vals[k := v];
  }

  /** Steps that write no content and change only the free list are not visible. */
  lemma FreeView<K(!new), V>(c: Arena<K, V>, hash: Hash<K>, lists: seq<seq<nat>>, owner: seq<nat>, out: set<nat>,
                             c': Arena<K, V>, free: seq<nat>)
    requires Rep(c, hash, lists, owner, out)
    requires |c'.ends| == |c.ends| && c'.mapping == c.mapping && SameContent(c.nodes, c'.nodes)
    ensures Viewable(c, lists) && Viewable(c', lists[|c.ends| := free])
    ensures ViewOf(c', lists[|c.ends| := free]) == ViewOf(c, lists)
  {
    RepViewable(c, hash, lists, owner, out);
    forall t: nat | t < |c.ends|
      ensures Keyed(c'.nodes, lists[t]) && KeysOf(c'.nodes, lists[t]) == KeysOf(c.nodes, lists[t]) {
      SameKeys(c.nodes, c'.nodes, lists[t]);
    }
    var a, b := ViewOf(c, lists), ViewOf(c', lists[|c.ends| := free]);
    assert b.order == a.order && b.vals == a.vals;
  }

  lemma SetValueView<K(!new), V>(c: Arena<K, V>, hash: Hash<K>, lists: seq<seq<nat>>, owner: seq<nat>, k: K, v: V)
    requires Rep(c, hash, lists, owner, {}) && k in c.mapping && c.mapping[k] < |c.nodes|
    ensures Viewable(c, lists) && Viewable(SetValue(c, c.mapping[k], v), lists)
    ensures ViewOf(SetValue(c, c.mapping[k], v), lists) == ViewOf(c, lists).(vals := ViewOf(c, lists).vals[k := v])
  {
    RepViewable(c, hash, lists, owner, {});
    var c' := SetValue(c, c.mapping[k], v);
    forall t: nat | t < |c.ends|
      ensures Keyed(c'.nodes, lists[t]) && KeysOf(c'.nodes, lists[t]) == KeysOf(c.nodes, lists[t]) {
      SameKeys(c.nodes, c'.nodes, lists[t]);
    }
    forall q | q in c.mapping && q != k ensures c.mapping[q] != c.mapping[k] {
      assert KeyOk(c, q) && KeyOk(c, k);
    }
    var a, b := ViewOf(c, lists), ViewOf(c', lists);
    assert b.order == a.order;
    assert b.vals == a.vals[k := v];
  }
}
