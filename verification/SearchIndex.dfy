/**
 The stored trie with its shortcut index, updated in place: `Radix` (crates/opsense-mlib/src/radix.rs)
 and `Search` (crates/opsense-mlib/src/search.rs) over the storage they share. A transaction is
 one assignment, ids are handed out in increasing order from 1, and the metadata streams are left out.
 */
module SearchIndex {
  import opened Kmp
  import opened RadixDfs
  import opened RadixInsert
  import opened RadixReroot
  import opened RadixSearch
  import opened RadixSubtree
  import opened RadixTree
  import opened RadixWalk
  import opened Words
  import opened Wrappers

  datatype RadixError = InvalidIndex | NotFound

  datatype SearchError = NoMatch | Duplicated | BadIndex

  // ---------------------------------------------------------------- shortcuts

  /** Node `n` is a candidate for patterns that start with `e`. */
  ghost predicate Indexed(sc: map<Elem, set<nat>>, n: nat, e: Elem) {
    e in sc && n in sc[e]
  }

  ghost predicate CoveredNode(nodes: map<nat, Node>, sc: map<Elem, set<nat>>, n: nat)
    requires n in nodes
  {
    forall i | 0 <= i < |nodes[n].prefix| :: Indexed(sc, n, nodes[n].prefix[i])
  }

  /** Every node outside `except` is a candidate for each element of its prefix. */
  ghost predicate Covered(nodes: map<nat, Node>, sc: map<Elem, set<nat>>, except: set<nat>) {
    forall n {:trigger CoveredNode(nodes, sc, n)} | n in nodes && n !in except :: CoveredNode(nodes, sc, n)
  }

  /** Candidates are nodes; they need not contain the element any more. */
  ghost predicate Candidates(nodes: map<nat, Node>, sc: map<Elem, set<nat>>) {
    forall e, n {:trigger Indexed(sc, n, e)} | Indexed(sc, n, e) :: n in nodes
  }

  function AddShortcut(sc: map<Elem, set<nat>>, e: Elem, n: nat): map<Elem, set<nat>> {
    sc[e := (if e in sc then sc[e] else {}) + {n}]
  }

  /** The events that the split callback records for a new leg. */
  function LegEvents(leg: nat, prefix: seq<Elem>): (r: seq<(nat, Elem)>)
    ensures |r| == |prefix| && forall i | 0 <= i < |prefix| :: r[i] == (leg, prefix[i])
  {
    seq(|prefix|, i requires 0 <= i < |prefix| => (leg, prefix[i]))
  }

  /** What `Search` still has to index after a successful insertion of `key` at node `id`. */
  ghost predicate Inserted(nodes: map<nat, Node>, sc: map<Elem, set<nat>>, pending: seq<(nat, Elem)>, key: seq<Elem>,
                           id: nat, tail: nat, leg: nat) {
    && id in nodes && tail <= |key| && Covered(nodes, sc, {id, leg})
    && (CoveredNode(nodes, sc, id) || forall i | 0 <= i < |nodes[id].prefix| :: nodes[id].prefix[i] in key[tail..])
    && (if leg == EMPTY then pending == [] else leg in nodes && pending == LegEvents(leg, nodes[leg].prefix))
  }

  /** `sc'` is `sc` with the events added. */
  ghost predicate Grown(sc: map<Elem, set<nat>>, sc': map<Elem, set<nat>>, events: seq<(nat, Elem)>) {
    forall n: nat, e: Elem {:trigger Indexed(sc', n, e)} :: Indexed(sc', n, e) <==>
        Indexed(sc, n, e) || (n, e) in events
  }

  /** Once the waiting events and those of the new key's rest are added, every node is indexed again. */
  lemma InsertedCovered(nodes: map<nat, Node>, sc: map<Elem, set<nat>>, pending: seq<(nat, Elem)>, key: seq<Elem>,
                        id: nat, tail: nat, leg: nat,
                        sc1: map<Elem, set<nat>>, sc2: map<Elem, set<nat>>)
    requires Inserted(nodes, sc, pending, key, id, tail, leg) && Candidates(nodes, sc) && EMPTY !in nodes
    requires Grown(sc, sc1, pending) && Grown(sc1, sc2, LegEvents(id, key[tail..]))
    ensures Covered(nodes, sc2, {}) && Candidates(nodes, sc2)
  {
    forall n | n in nodes ensures CoveredNode(nodes, sc2, n) {
      forall i | 0 <= i < |nodes[n].prefix| ensures Indexed(sc2, n, nodes[n].prefix[i]) {
        assert Indexed(sc1, n, nodes[n].prefix[i]) ==> Indexed(sc2, n, nodes[n].prefix[i]);
        if n !in {id, leg} || (n == id && CoveredNode(nodes, sc, id)) {
          assert CoveredNode(nodes, sc, n);
        } else if n == id {
          LegEventsHave(id, key[tail..], nodes[n].prefix[i]);
        } else {
          LegEventsHave(leg, nodes[leg].prefix, nodes[leg].prefix[i]);
        }
      }
    }
    forall n, e | Indexed(sc2, n, e) ensures n in nodes {
      assert Indexed(sc1, n, e) || n == id;
      assert Indexed(sc1, n, e) ==> Indexed(sc, n, e) || n == leg;
    }
  }

  lemma LegEventsHave(leg: nat, prefix: seq<Elem>, e: Elem)
    requires e in prefix
    ensures (leg, e) in LegEvents(leg, prefix)
  {
    var i :| 0 <= i < |prefix| && prefix[i] == e;
    assert LegEvents(leg, prefix)[i] == (leg, e);
  }

  lemma GrownSnoc(sc0: map<Elem, set<nat>>, sc: map<Elem, set<nat>>, events: seq<(nat, Elem)>, n: nat, e: Elem)
    requires Grown(sc0, sc, events)
    ensures Grown(sc0, AddShortcut(sc, e, n), events + [(n, e)])
  {
    forall m: nat, x: Elem ensures Indexed(AddShortcut(sc, e, n), m, x) <==>
        Indexed(sc0, m, x) || (m, x) in events + [(n, e)] {
      assert Indexed(sc, m, x) <==> Indexed(sc0, m, x) || (m, x) in events;
    }
  }

  // ---------------------------------------------------------------- key lengths

  ghost predicate LenOf(c: map<seq<Elem>, nat>, id: nat, len: nat) {
    exists key :: key in c && c[key] == id && |key| == len
  }

  /** Every record has a length, the length of a key stored under it. */
  ghost predicate LensOk(c: map<seq<Elem>, nat>, lens: map<nat, nat>) {
    && (forall key | key in c :: c[key] in lens)
    && (forall id {:trigger LenOf(c, id, lens[id])} | id in lens :: LenOf(c, id, lens[id]))
  }

  lemma LensStep(c: map<seq<Elem>, nat>, lens: map<nat, nat>, key: seq<Elem>, index: nat)
    requires LensOk(c, lens) && key !in c
    ensures LensOk(c[key := index], lens[index := |key|])
  {
    var c', lens' := c[key := index], lens[index := |key|];
    assert key in c' && c'[key] == index;
    forall id | id in lens' ensures LenOf(c', id, lens'[id]) {
      if id != index {
        assert LenOf(c, id, lens[id]);
        var k :| k in c && c[k] == id && |k| == lens[id];
        assert k in c' && c'[k] == id;
      }
    }
  }

  // ---------------------------------------------------------------- the storage transactions

  /** `extend`: a new leaf and its entry in the parent's children. */
  function ExtendNodes(nodes: map<nat, Node>, parent: nat, suffix: seq<Elem>, value: nat, id: nat): map<nat, Node>
    requires parent in nodes
  {
    nodes[parent := nodes[parent].(children := nodes[parent].children + [id])][id := Node(suffix, value, [])]
  }

  /**
   `split`: the leg takes the rest of the prefix, the record and the children; the new key ends at the parent or
   in a new node.
   */
  function SplitNodes(nodes: map<nat, Node>, parent: nat, bp: nat, suffix: seq<Elem>, value: nat, id: nat,
                      leg: nat): map<nat, Node>
    requires parent in nodes && bp <= |nodes[parent].prefix|
  {
    var node := nodes[parent];
    var moved := Node(node.prefix[bp..], node.record, node.children);
    if suffix == [] then nodes[parent := Node(node.prefix[..bp], value, [leg])][leg := moved]
    else nodes[parent := Node(node.prefix[..bp], EMPTY, [leg, id])][leg := moved][id := Node(suffix, value, [])]
  }

  /** A one-element key becomes the root, a longer one a root without record and a leaf. */
  function RootNodes(nodes: map<nat, Node>, key: seq<Elem>, index: nat, root: nat, leaf: nat): map<nat, Node>
    requires key != []
  {
    if |key| == 1 then nodes[root := Node(key, index, [])]
    else ExtendNodes(nodes[root := Node(key[..1], EMPTY, [])], root, key[1..], index, leaf)
  }

  // ---------------------------------------------------------------- what each transaction does to the index

  ghost predicate Free(nodes: map<nat, Node>, n: nat) {
    n != EMPTY && n !in nodes
  }

  /** All ids from `k` on are still free. */
  ghost predicate IdsBelow(nodes: map<nat, Node>, k: nat) {
    forall n: nat {:trigger Free(nodes, n)} | k <= n :: Free(nodes, n)
  }

  /** The trie after a step: its stored nodes and roots are given, its stored map is `c`. */
  ghost predicate After(t: Tree, nodes: map<nat, Node>, roots: map<nat, nat>, sharding: nat, c: map<seq<Elem>, nat>) {
    t.nodes == nodes && t.roots == roots && t.sharding == sharding && Good(t, c)
  }

  lemma LeafStep(t: Tree, c: map<seq<Elem>, nat>, sc: map<Elem, set<nat>>, key: seq<Elem>, n: nat, index: nat, id: nat)
    returns (t': Tree)
    requires Good(t, c) && Covered(t.nodes, sc, {}) && Candidates(t.nodes, sc)
    requires n in t.nodes && t.path[n] < key && NoOwner(t, key[..|t.path[n]| + 1]) && index != EMPTY
    requires t.path[n] == [] ==> ShardOf(key[0], t.sharding) == t.shard[n]
    requires IdsBelow(t.nodes, id)
    ensures id != EMPTY && key !in c
    ensures After(t', ExtendNodes(t.nodes, n, key[|t.path[n]|..], index, id), t.roots, t.sharding, c[key := index])
    ensures Candidates(t'.nodes, sc) && IdsBelow(t'.nodes, id + 1)
            && Inserted(t'.nodes, sc, [], key, id, |t.path[n]|, EMPTY)
    ensures Holds(t', id, key, index)
  {
    assert Free(t.nodes, id);
    ExtendGood(t, c, key, n, index, id);
    t' := AddChild(t, n, key[|t.path[n]|..], index, id);
    forall k: nat | id + 1 <= k ensures Free(t'.nodes, k) {
      assert Free(t.nodes, k);
    }
    forall m | m in t'.nodes && m != id ensures CoveredNode(t'.nodes, sc, m) {
      assert CoveredNode(t.nodes, sc, m);
    }
  }

  lemma RecordStep(t: Tree, c: map<seq<Elem>, nat>, sc: map<Elem, set<nat>>, n: nat, index: nat) returns (t': Tree)
    requires Good(t, c) && Covered(t.nodes, sc, {}) && Candidates(t.nodes, sc)
    requires n in t.nodes && t.path[n] != [] && t.nodes[n].record == EMPTY && index != EMPTY
    ensures t.path[n] !in c
    ensures After(t', t.nodes[n := t.nodes[n].(record := index)], t.roots, t.sharding, c[t.path[n] := index])
    ensures t'.nodes.Keys == t.nodes.Keys
    ensures Candidates(t'.nodes, sc) && Inserted(t'.nodes, sc, [], t.path[n], n, |t.path[n]|, EMPTY)
    ensures Holds(t', n, t.path[n], index)
  {
    RecordGood(t, c, n, index);
    t' := SetRecord(t, n, index);
    forall m | m in t'.nodes ensures CoveredNode(t'.nodes, sc, m) {
      assert CoveredNode(t.nodes, sc, m);
    }
  }

  lemma SplitStep(t: Tree, c: map<seq<Elem>, nat>, sc: map<Elem, set<nat>>, key: seq<Elem>, n: nat, tail: nat,
                  bp: nat, suffix: seq<Elem>,
                  index: nat, id: nat, leg: nat)
    returns (t': Tree)
    requires Good(t, c) && Covered(t.nodes, sc, {}) && Candidates(t.nodes, sc) && index != EMPTY
    requires n in t.nodes && tail == Start(t, n) && bp < |t.nodes[n].prefix| <= |t.path[n]|
    requires Parts(t, key, n, tail + bp) && suffix == key[tail + bp..]
    requires Free(t.nodes, leg) && Free(t.nodes, id) && id != leg && IdsBelow(t.nodes, leg)
             && (suffix != [] ==> id < leg)
    ensures key !in c
    ensures After(t', SplitNodes(t.nodes, n, bp, suffix, index, id, leg), t.roots, t.sharding, c[key := index])
    ensures Candidates(t'.nodes, sc) && IdsBelow(t'.nodes, leg + 1)
    ensures var target := if suffix == [] then n else id;
            && Inserted(t'.nodes, sc, LegEvents(leg, t.nodes[n].prefix[bp..]), key, target, tail, leg)
            && Holds(t', target, key, index)
  {
    SplitGood(t, c, key, n, bp, suffix, index, id, leg);
    t' := SplitTree(t, n, bp, suffix, index, id, leg);
    SplitTreeNodes(t, n, bp, suffix, index, id, leg);
    SplitInserted(t.nodes, sc, key, n, tail, bp, suffix, index, id, leg);
    assert key == t.path[n][..tail + bp] + suffix;
    SplitHolds(t, key, n, bp, suffix, index, id, leg);
  }

  lemma SplitHolds(t: Tree, key: seq<Elem>, n: nat, bp: nat, suffix: seq<Elem>, index: nat, id: nat, leg: nat)
    requires Domains(t) && n in t.nodes && bp <= |t.nodes[n].prefix| <= |t.path[n]|
             && Domains(Cut(t, n, bp, EMPTY, leg)) && Domains(SplitTree(t, n, bp, suffix, index, id, leg))
    requires leg !in t.nodes && id !in t.nodes && id != leg && index != EMPTY
    requires key == t.path[n][..Start(t, n) + bp] + suffix
    ensures Holds(SplitTree(t, n, bp, suffix, index, id, leg), if suffix == [] then n else id, key, index)
  {
  }

  lemma SplitTreeNodes(t: Tree, n: nat, bp: nat, suffix: seq<Elem>, value: nat, id: nat, leg: nat)
    requires Domains(t) && n in t.nodes && bp <= |t.nodes[n].prefix| <= |t.path[n]|
             && Domains(Cut(t, n, bp, EMPTY, leg))
    requires leg !in t.nodes && id !in t.nodes && id != leg
    ensures var t' := SplitTree(t, n, bp, suffix, value, id, leg);
            t'.nodes == SplitNodes(t.nodes, n, bp, suffix, value, id, leg) && t'.roots == t.roots
              && t'.sharding == t.sharding
  {
    assert [leg] + [id] == [leg, id];
  }

  lemma SplitInserted(nodes: map<nat, Node>, sc: map<Elem, set<nat>>, key: seq<Elem>, n: nat, tail: nat, bp: nat,
                      suffix: seq<Elem>,
                      index: nat, id: nat, leg: nat)
    requires n in nodes && bp <= |nodes[n].prefix| && tail + bp <= |key| && Covered(nodes, sc, {})
             && Candidates(nodes, sc)
    requires suffix == key[tail + bp..]
    requires Free(nodes, leg) && Free(nodes, id) && id != leg && IdsBelow(nodes, leg) && (suffix != [] ==> id < leg)
    ensures var nodes', target := SplitNodes(nodes, n, bp, suffix, index, id, leg), if suffix == [] then n else id;
            && Candidates(nodes', sc) && IdsBelow(nodes', leg + 1)
            && Inserted(nodes', sc, LegEvents(leg, nodes[n].prefix[bp..]), key, target, tail, leg)
  {
    var nodes' := SplitNodes(nodes, n, bp, suffix, index, id, leg);
    forall m | m in nodes ensures CoveredNode(nodes', sc, m) {
      assert CoveredNode(nodes, sc, m);
    }
    forall i | 0 <= i < |suffix| ensures suffix[i] in key[tail..] {
      assert suffix[i] == key[tail..][bp + i];
    }
    forall k: nat | leg + 1 <= k ensures Free(nodes', k) {
      assert Free(nodes, k);
    }
  }

  /** The candidates after a new root: `Radix::insert` itself indexes the root of a longer key. */
  ghost function RootShortcuts(sc: map<Elem, set<nat>>, key: seq<Elem>, root: nat): map<Elem, set<nat>>
    requires key != []
  {
    if |key| == 1 then sc else AddShortcut(sc, key[0], root)
  }

  lemma RootStep(t: Tree, c: map<seq<Elem>, nat>, sc: map<Elem, set<nat>>, key: seq<Elem>, index: nat, root: nat,
                 leaf: nat)
    returns (t': Tree)
    requires Good(t, c) && Covered(t.nodes, sc, {}) && Candidates(t.nodes, sc)
    requires key != [] && ShardOf(key[0], t.sharding) !in t.roots && index != EMPTY
    requires IdsBelow(t.nodes, root) && leaf == root + 1
    ensures root != EMPTY && IdsBelow(t'.nodes, if |key| == 1 then leaf else leaf + 1)
    ensures var s := ShardOf(key[0], t.sharding);
            var sc' := RootShortcuts(sc, key, root);
            && key !in c
            && After(t', RootNodes(t.nodes, key, index, root, leaf), t.roots[s := root], t.sharding, c[key := index])
            && Candidates(t'.nodes, sc')
            && Inserted(t'.nodes, sc', [], key, if |key| == 1 then root else leaf, if |key| == 1 then 0 else 1, EMPTY)
            && Holds(t', if |key| == 1 then root else leaf, key, index)
  {
    assert Free(t.nodes, root) && Free(t.nodes, leaf);
    RootGood(t, c, key, index, root, leaf);
    t' := RootTree(t, key, index, root, leaf);
    forall k: nat | (if |key| == 1 then leaf else leaf + 1) <= k ensures Free(t'.nodes, k) {
      assert Free(t.nodes, k);
    }
    RootInserted(t.nodes, sc, key, index, root, leaf);
  }

  lemma RootInserted(nodes: map<nat, Node>, sc: map<Elem, set<nat>>, key: seq<Elem>, index: nat, root: nat, leaf: nat)
    requires key != [] && Covered(nodes, sc, {}) && Candidates(nodes, sc) && root !in nodes && leaf !in nodes
             && leaf != root
    ensures var nodes', sc' := RootNodes(nodes, key, index, root, leaf), RootShortcuts(sc, key, root);
            && Candidates(nodes', sc')
            && Inserted(nodes', sc', [], key, if |key| == 1 then root else leaf, if |key| == 1 then 0 else 1, EMPTY)
  {
    var nodes', sc' := RootNodes(nodes, key, index, root, leaf), RootShortcuts(sc, key, root);
    forall m | m in nodes ensures CoveredNode(nodes', sc', m) {
      assert CoveredNode(nodes, sc, m);
    }
    forall n, e | Indexed(sc', n, e) ensures n in nodes' {
      assert Indexed(sc, n, e) || n == root;
    }
    assert |key| > 1 ==> CoveredNode(nodes', sc', root);
  }

  // ---------------------------------------------------------------- where a key leaves the trie

  datatype WalkEnd =
    | Splits(n: nat, tail: nat, common: nat)
    | Ends(n: nat)
    | Leaves(n: nat, tail: nat)

  ghost predicate EndOk(t: Tree, key: seq<Elem>, e: WalkEnd)
    requires WellFormed(t)
  {
    match e
    case Splits(n, tail, common) =>
      n in t.nodes && tail == Start(t, n) && common < |t.nodes[n].prefix| <= |t.path[n]|
        && Parts(t, key, n, tail + common)
    case Ends(n) => key != [] && n in t.nodes && t.path[n] == key
    case Leaves(n, tail) =>
      && n in t.nodes && t.path[n] < key && tail == |t.path[n]| && NoOwner(t, key[..tail + 1])
      && (t.path[n] == [] ==> ShardOf(key[0], t.sharding) == t.shard[n])
  }

  /** The nodes of the trie `t` are stored. */
  ghost predicate Within(t: Tree, nodes: map<nat, Node>) {
    forall n | n in t.nodes :: n in nodes && nodes[n] == t.nodes[n]
  }

  /** `top` is the root of the shard of `key`. */
  ghost predicate IsTop(t: Tree, key: seq<Elem>, top: nat) {
    && t.sharding > 0 && key != [] && ShardOf(key[0], t.sharding) in t.roots
    && t.roots[ShardOf(key[0], t.sharding)] == top
  }

  ghost function Lookup(c: map<seq<Elem>, nat>, key: seq<Elem>): Result<nat, RadixError> {
    if key in c then Success(c[key]) else Failure(RadixError.NotFound)
  }

  lemma EmptyNotStored(t: Tree, c: map<seq<Elem>, nat>, begin: nat)
    requires Good(t, c) && (begin != EMPTY ==> begin in t.nodes)
    ensures [] !in KeysFrom(t, c, begin)
  {
    if begin == EMPTY {
      StoredKey(t, c, []);
    } else {
      RerootGood(t, c, begin);
      StoredKey(Reroot(t, begin), KeysFrom(t, c, begin), []);
    }
  }

  /** How much of the key was read before the node at which it was put: all of it, if the node was there before. */
  ghost predicate ReadBefore(t: Tree, key: seq<Elem>, tail: nat)
    requires WellFormed(t) && key != []
  {
    if ShardOf(key[0], t.sharding) !in t.roots then tail == if |key| == 1 then 0 else 1
    else exists e :: EndOk(t, key, e) && tail == if e.Ends? then |key| else e.tail
  }

  /** The end of the walk decides whether the key is stored, and with which record. */
  lemma EndDecides(t: Tree, c: map<seq<Elem>, nat>, key: seq<Elem>, e: WalkEnd)
    requires Good(t, c) && EndOk(t, key, e)
    ensures key in c <==> e.Ends? && t.nodes[e.n].record != EMPTY
    ensures key in c ==> c[key] == t.nodes[e.n].record
  {
    match e
    case Ends(n) => StoredAt(t, c, n);
    case Leaves(n, tail) => NotStoredPast(t, c, key, tail + 1);
    case Splits(n, tail, common) =>
      var k := tail + common;
      if k == |key| {
        assert t.path[n][..k] == key;
        NotAPath(t, c, n, k);
      } else {
        MissInside(t, key, n, k);
        NotStoredPast(t, c, key, k + 1);
      }
  }

  lemma NotStoredPast(t: Tree, c: map<seq<Elem>, nat>, key: seq<Elem>, k: nat)
    requires Good(t, c) && 0 < k <= |key| && NoOwner(t, key[..k])
    ensures key !in c
  {
    forall m | m in t.nodes ensures t.path[m] != key {
      NoOwnerNoPath(t, key[..k], m);
    }
    NotStored(t, c, key);
  }

  // ---------------------------------------------------------------- collecting a subtree

  /** The results of a collection in order: the records of the nodes in `order`. */
  ghost predicate Listed(t: Tree, order: seq<nat>, results: seq<(seq<Elem>, nat)>)
    requires Domains(t)
  {
    && |order| == |results|
    && (forall i | 0 <= i < |order| :: order[i] in t.nodes && t.nodes[order[i]].record != EMPTY
                                       && results[i] == (t.path[order[i]], t.nodes[order[i]].record))
    && (forall i, j | 0 <= i < j < |order| :: order[i] != order[j])
  }

  /** Exactly the stored keys that satisfy `p <= key`, each once. */
  ghost predicate PrefixAnswer(c: map<seq<Elem>, nat>, p: seq<Elem>, results: seq<(seq<Elem>, nat)>) {
    && (forall i | 0 <= i < |results| :: results[i].0 in c && c[results[i].0] == results[i].1 && p <= results[i].0)
    && (forall key | key in c && p <= key :: (key, c[key]) in results)
    && (forall i, j | 0 <= i < j < |results| :: results[i].0 != results[j].0)
  }

  lemma ListedAnswers(t: Tree, c: map<seq<Elem>, nat>, p: seq<Elem>, n: nat, order: seq<nat>,
                      results: seq<(seq<Elem>, nat)>)
    requires Good(t, c) && p != [] && Owns(t, n, p) && Listed(t, order, results)
    requires forall i | 0 <= i < |order| :: Below(t, n, order[i])
    requires forall m | Below(t, n, m) && t.nodes[m].record != EMPTY :: m in order
    ensures PrefixAnswer(c, p, results)
  {
    forall i | 0 <= i < |results| ensures results[i].0 in c && c[results[i].0] == results[i].1 && p <= results[i].0 {
      assert Kept(t, c, order[i]);
      PrefixIsSubtree(t, p, n, order[i]);
    }
    forall key | key in c && p <= key ensures (key, c[key]) in results {
      var m := HolderOf(t, c, key);
      PrefixIsSubtree(t, p, n, m);
      var i :| 0 <= i < |order| && order[i] == m;
      assert results[i] == (key, c[key]);
    }
    forall i, j | 0 <= i < j < |results| ensures results[i].0 != results[j].0 {
      assert NodeOk(t, order[i]) && NodeOk(t, order[j]);
      OwnsItself(t, order[i]);
      OwnsItself(t, order[j]);
    }
  }

  lemma NothingStored(t: Tree, c: map<seq<Elem>, nat>, p: seq<Elem>, k: nat)
    requires Good(t, c) && 0 < k <= |p| && NoOwner(t, p[..k])
    ensures PrefixAnswer(c, p, [])
  {
    forall key | key in c ensures !(p <= key) {
      var m := HolderOf(t, c, key);
      assert p <= key ==> p[..k] <= key;
      NoOwnerNoPath(t, p[..k], m);
    }
  }

  /** The nodes of a collection stack. */
  ghost function Tops(stack: seq<(nat, seq<Elem>)>): (r: seq<nat>)
    ensures |r| == |stack| && forall i | 0 <= i < |stack| :: r[i] == stack[i].0
  {
    seq(|stack|, i requires 0 <= i < |stack| => stack[i].0)
  }

  /** The walk of `search_prefix` along `p`, which has spelled `matched`. */
  ghost predicate Along(t: Tree, p: seq<Elem>, n: nat, tail: nat, matched: seq<Elem>)
    requires Domains(t)
  {
    Reached(t, p, n, tail) && matched == t.path[n][..tail]
  }

  /** The node has spelled its whole prefix. */
  lemma AlongPath(t: Tree, p: seq<Elem>, n: nat, tail: nat, matched: seq<Elem>)
    requires WellFormed(t) && Along(t, p, n, tail, matched)
    ensures matched + t.nodes[n].prefix == t.path[n]
  {
    PathEnds(t, n);
  }

  lemma PrefixHit(t: Tree, p: seq<Elem>, n: nat)
    requires WellFormed(t) && Parts(t, p, n, |p|)
    ensures Owns(t, n, p)
  {
    assert p[..|p|] == p;
    StartBound(t, n);
  }

  lemma PrefixMiss(t: Tree, c: map<seq<Elem>, nat>, p: seq<Elem>, n: nat, k: nat)
    requires Good(t, c) && Parts(t, p, n, k) && k < |p| && k < |t.path[n]|
    ensures PrefixAnswer(c, p, [])
  {
    MissInside(t, p, n, k);
    NothingStored(t, c, p, k + 1);
  }

  /** The prefix of `n` was read completely. */
  lemma ReadThrough(t: Tree, p: seq<Elem>, n: nat, k: nat)
    requires Domains(t) && Parts(t, p, n, k) && k == |t.path[n]| && k < |p|
    ensures t.path[n] < p && Inside(t, n, k) && (t.path[n] == [] ==> t.shard[n] == ShardOf(p[0], t.sharding))
  {
    assert t.path[n] == t.path[n][..k];
  }

  lemma NoChild(t: Tree, c: map<seq<Elem>, nat>, p: seq<Elem>, n: nat)
    requires Good(t, c) && n in t.nodes && t.path[n] < p && Inside(t, n, |t.path[n]|)
    requires forall i | 0 <= i < |t.nodes[n].children| :: !StartsWith(t, t.nodes[n].children[i], p[|t.path[n]|])
    requires t.path[n] == [] ==> t.shard[n] == ShardOf(p[0], t.sharding)
    ensures PrefixAnswer(c, p, [])
  {
    MissChild(t, p, n);
    NothingStored(t, c, p, |t.path[n]| + 1);
  }

  lemma AlongChild(t: Tree, p: seq<Elem>, n: nat, child: nat)
    requires WellFormed(t) && n in t.nodes && t.path[n] < p && child in t.nodes[n].children
    requires StartsWith(t, child, p[|t.path[n]|])
    ensures Along(t, p, child, |t.path[n]|, t.path[n]) && t.parent[child] == n && t.parent[child] != EMPTY
  {
    ReachedChild(t, p, n, child);
    StartBound(t, child);
  }

  ghost predicate StackOk(t: Tree, stack: seq<(nat, seq<Elem>)>)
    requires Domains(t)
  {
    forall i | 0 <= i < |stack| :: stack[i].0 in t.nodes && stack[i].1 == t.path[stack[i].0]
  }

  /** The state of `collect_all`: the nodes taken are `seen`, those with a record in the order `order`. */
  ghost predicate Collecting(t: Tree, root: nat, stack: seq<(nat, seq<Elem>)>, order: seq<nat>, seen: set<nat>,
                             results: seq<(seq<Elem>, nat)>)
    requires Domains(t)
  {
    && Sweep(t, root, Tops(stack), seen) && Listed(t, order, results) && StackOk(t, stack)
    && (forall i | 0 <= i < |order| :: order[i] in seen)
    && (forall m | m in seen && t.nodes[m].record != EMPTY :: m in order)
  }

  lemma CollectingTop(t: Tree, root: nat, stack: seq<(nat, seq<Elem>)>, order: seq<nat>, seen: set<nat>,
                      results: seq<(seq<Elem>, nat)>)
    requires Domains(t) && Collecting(t, root, stack, order, seen, results) && stack != []
    ensures var top := stack[|stack| - 1]; top.0 in t.nodes && top.1 == t.path[top.0] && top.0 !in seen
  {
    var rest, n := Tops(stack[..|stack| - 1]), stack[|stack| - 1].0;
    assert Tops(stack) == rest + [n];
    SweepTop(t, root, rest, n, seen);
  }

  /** The entries pushed for the children of `n`. */
  ghost predicate Pushed(t: Tree, n: nat, stack: seq<(nat, seq<Elem>)>, next: seq<(nat, seq<Elem>)>)
    requires Domains(t) && n in t.nodes
  {
    && |next| == |stack| + |t.nodes[n].children| && next[..|stack|] == stack
    && (forall i | |stack| <= i < |next| ::
          next[i].0 == t.nodes[n].children[i - |stack|] && next[i].0 in t.nodes && next[i].1 == t.path[next[i].0])
  }

  /** One more node is taken. */
  lemma ListedNext(t: Tree, order: seq<nat>, seen: set<nat>, results: seq<(seq<Elem>, nat)>, n: nat)
    returns (order': seq<nat>)
    requires Domains(t) && Listed(t, order, results) && n in t.nodes && n !in seen
    requires forall i | 0 <= i < |order| :: order[i] in seen
    requires forall m | m in seen :: m in t.nodes && (t.nodes[m].record != EMPTY ==> m in order)
    ensures var record := t.nodes[n].record;
            Listed(t, order', if record != EMPTY then results + [(t.path[n], record)] else results)
    ensures forall i | 0 <= i < |order'| :: order'[i] in seen + {n}
    ensures forall m | m in seen + {n} && t.nodes[m].record != EMPTY :: m in order'
  {
    order' := if t.nodes[n].record != EMPTY then order + [n] else order;
  }

  lemma CollectingStep(t: Tree, root: nat, stack: seq<(nat, seq<Elem>)>, order: seq<nat>, seen: set<nat>,
                       results: seq<(seq<Elem>, nat)>,
                       next: seq<(nat, seq<Elem>)>)
    returns (order': seq<nat>)
    requires WellFormed(t) && Collecting(t, root, stack, order, seen, results) && stack != []
    requires stack[|stack| - 1].0 in t.nodes && Pushed(t, stack[|stack| - 1].0, stack[..|stack| - 1], next)
    ensures var n := stack[|stack| - 1].0;
            Collecting(t, root, next, order', seen + {n},
                       if t.nodes[n].record != EMPTY then results + [(t.path[n], t.nodes[n].record)] else results)
  {
    var rest, n := Tops(stack[..|stack| - 1]), stack[|stack| - 1].0;
    CollectingTop(t, root, stack, order, seen, results);
    assert Tops(stack) == rest + [n];
    SweepStep(t, root, rest, n, seen);
    assert Tops(next) == rest + t.nodes[n].children;
    order' := ListedNext(t, order, seen, results, n);
    PushedOk(t, n, stack[..|stack| - 1], next);
  }

  lemma PushedOk(t: Tree, n: nat, stack: seq<(nat, seq<Elem>)>, next: seq<(nat, seq<Elem>)>)
    requires Domains(t) && n in t.nodes && StackOk(t, stack) && Pushed(t, n, stack, next)
    ensures StackOk(t, next)
  {
    forall i | 0 <= i < |next| ensures next[i].0 in t.nodes && next[i].1 == t.path[next[i].0] {
      assert i < |stack| ==> next[i] == next[..|stack|][i] == stack[i];
    }
  }

  // ---------------------------------------------------------------- search_dfs

  /** Where `search_dfs` starts; None when the shard has no root. */
  ghost function StartAt(t: Tree, begin: nat, pattern: seq<Elem>,
                         resume: Option<DfsCheckpoint>): (r: Option<DfsCheckpoint>)
    requires WellFormed(t) && pattern != [] && (begin != EMPTY ==> begin in t.nodes)
    requires resume.Some? ==> StateIn(t, resume.value.state)
    ensures r.Some? ==> StateIn(t, r.value.state)
  {
    var s := ShardOf(pattern[0], t.sharding);
    if resume.Some? then resume
    else if begin != EMPTY then Some(SearchFrom([DfsFrame(begin, 0, 0, 0)]))
    else if s in t.roots then assert RootOk(t, s); Some(SearchFrom([DfsFrame(t.roots[s], 0, 0, 0)]))
    else None
  }

  /** The answer of the walk from `cp`: interrupted after `budget` steps, or complete. */
  ghost function Walked(t: Tree, pattern: seq<Elem>, m: Matcher, cp: DfsCheckpoint,
                        budget: Option<nat>): (seq<nat>, Option<DfsCheckpoint>)
    requires WellFormed(t) && StateIn(t, cp.state)
  {
    if budget.Some? && Run(t, pattern, m, cp, budget.value).state.Some?
      then ([], Some(Run(t, pattern, m, cp, budget.value)))
    else (Finish(t, pattern, m, cp), None)
  }

  /**
   An interrupted walk returns nothing yet, has made progress unless it was not given a single step, and its
   checkpoint leads to the records of the uninterrupted walk.
   */
  lemma {:induction false} InterruptedWalk(t: Tree, pattern: seq<Elem>, m: Matcher, cp: DfsCheckpoint, budget: nat)
    requires WellFormed(t) && StateIn(t, cp.state)
    ensures var (records, left) := Walked(t, pattern, m, cp, Some(budget));
            if left.None? then Walked(t, pattern, m, cp, None) == (records, None)
            else
              && records == [] && StateIn(t, left.value.state) && left.value.state.Some?
              && Walked(t, pattern, m, left.value, None) == Walked(t, pattern, m, cp, None)
              && (budget == 0 ==> left.value == cp)
              && (budget > 0 ==> Further(t, pattern, m, cp, left.value))
  {
    ResumeAnywhere(t, pattern, m, cp, budget);
    if budget > 0 && Run(t, pattern, m, cp, budget).state.Some? {
      RunFurther(t, pattern, m, cp, budget);
    }
  }

  /** `b` has fewer steps before it than `a`. */
  ghost predicate Further(t: Tree, pattern: seq<Elem>, m: Matcher, a: DfsCheckpoint, b: DfsCheckpoint)
    requires WellFormed(t) && StateIn(t, a.state) && StateIn(t, b.state)
  {
    Phase(b) < Phase(a) || (Phase(b) == Phase(a) && Cost(t, pattern, m, b) < Cost(t, pattern, m, a))
  }

  lemma {:induction false} RunFurther(t: Tree, pattern: seq<Elem>, m: Matcher, cp: DfsCheckpoint, k: nat)
    requires WellFormed(t) && StateIn(t, cp.state) && k > 0 && Run(t, pattern, m, cp, k).state.Some?
    ensures Further(t, pattern, m, cp, Run(t, pattern, m, cp, k))
    decreases k
  {
    if cp.state.None? {
      FinishedStays(t, pattern, m, cp, k);
    } else {
      StepDecreases(t, pattern, m, cp);
      if k > 1 {
        RunFurther(t, pattern, m, Step(t, pattern, m, cp), k - 1);
      }
    }
  }

  lemma {:induction false} FinishedStays(t: Tree, pattern: seq<Elem>, m: Matcher, cp: DfsCheckpoint, k: nat)
    requires WellFormed(t) && cp.state.None?
    ensures Run(t, pattern, m, cp, k) == cp
  {
    if k > 0 {
      FinishedStays(t, pattern, m, cp, k - 1);
    }
  }

  // ---------------------------------------------------------------- substring search

  /** The record `id` was given to a stored key that contains the pattern. */
  ghost predicate MatchedBy(c: map<seq<Elem>, nat>, pattern: seq<Elem>, id: nat) {
    exists key :: key in c && c[key] == id && Occurs(pattern, key)
  }

  ghost predicate SomeKeyContains(c: map<seq<Elem>, nat>, pattern: seq<Elem>) {
    exists key :: key in c && Occurs(pattern, key)
  }

  /** The record `id` was given to a stored key of at most `max` elements. */
  ghost predicate ShortEnough(c: map<seq<Elem>, nat>, id: nat, max: nat) {
    exists key :: key in c && c[key] == id && |key| <= max
  }

  ghost predicate NoRepeats(s: seq<nat>) {
    forall i, j | 0 <= i < j < |s| :: s[i] != s[j]
  }

  predicate LimitReached(limit: Option<nat>, k: nat) {
    limit.Some? && k >= limit.value
  }

  /** The records that the candidates from `offset` on return. */
  ghost function Offered(t: Tree, pattern: seq<Elem>, cands: set<nat>, offset: Option<nat>): set<nat>
    requires WellFormed(t)
  {
    set n, v | n in cands && n in t.nodes && (offset.Some? ==> n >= offset.value) && v in DfsRecords(t, pattern, n) :: v
  }

  /** The candidates for a pattern: the nodes indexed for its first element. */
  ghost function CandidatesOf(sc: map<Elem, set<nat>>, pattern: seq<Elem>): set<nat> {
    if pattern != [] && pattern[0] in sc then sc[pattern[0]] else {}
  }

  /** A key of the record goes through a node from `offset` on, and contains the pattern from there on. */
  ghost predicate MatchedFrom(t: Tree, c: map<seq<Elem>, nat>, pattern: seq<Elem>, offset: Option<nat>, v: nat)
    requires WellFormed(t)
  {
    exists key, n ::
      && key in c && c[key] == v && n in t.nodes && (offset.Some? ==> n >= offset.value)
      && t.path[n] <= key && Occurs(pattern, key[|Before(t, n)|..])
  }

  lemma OfferedSound(t: Tree, c: map<seq<Elem>, nat>, pattern: seq<Elem>, cands: set<nat>, offset: Option<nat>, v: nat)
    requires Good(t, c) && pattern != [] && v in Offered(t, pattern, cands, offset)
    ensures v != EMPTY && MatchedBy(c, pattern, v) && MatchedFrom(t, c, pattern, offset, v)
  {
    var n :| n in cands && n in t.nodes && (offset.Some? ==> n >= offset.value) && v in DfsRecords(t, pattern, n);
    var key := DfsSound(t, c, pattern, n, v);
    var holder := HolderOf(t, c, key);
    OccursInRest(pattern, key, |Before(t, n)|);
  }

  lemma OccursInRest(pattern: seq<Elem>, key: seq<Elem>, k: nat)
    requires k <= |key| && Occurs(pattern, key[k..])
    ensures Occurs(pattern, key)
  {
    var i: nat :| OccursAt(pattern, key[k..], i);
    assert key[k + i..k + i + |pattern|] == key[k..][i..i + |pattern|];
    assert OccursAt(pattern, key, k + i);
  }

  /** In some stored key the pattern occurs, starting in the prefix of a node from `offset` on. */
  ghost predicate StartsFrom(t: Tree, c: map<seq<Elem>, nat>, pattern: seq<Elem>, offset: Option<nat>)
    requires Domains(t)
  {
    exists n: nat, key: seq<Elem>, q: nat :: StartsIn(t, c, pattern, n, key, q) && (offset.Some? ==> n >= offset.value)
  }

  lemma SomeStart(t: Tree, c: map<seq<Elem>, nat>, pattern: seq<Elem>)
    requires Good(t, c) && pattern != [] && SomeKeyContains(c, pattern)
    ensures StartsFrom(t, c, pattern, None)
  {
    var key :| key in c && Occurs(pattern, key);
    var n, q := OccurrenceStarts(t, c, pattern, key);
  }

  /** An occurrence that starts in the prefix of a node from `offset` on makes the candidates return something. */
  lemma OfferedComplete(t: Tree, c: map<seq<Elem>, nat>, sc: map<Elem, set<nat>>, pattern: seq<Elem>,
                        offset: Option<nat>, n: nat, key: seq<Elem>, q: nat)
    requires Good(t, c) && Covered(t.nodes, sc, {}) && pattern != [] && StartsIn(t, c, pattern, n, key, q)
    requires offset.Some? ==> n >= offset.value
    ensures Offered(t, pattern, CandidatesOf(sc, pattern), offset) != {}
  {
    OccurrenceFound(t, c, pattern, n, key, q);
    var i :| 0 <= i < |t.nodes[n].prefix| && t.nodes[n].prefix[i] == pattern[0];
    assert CoveredNode(t.nodes, sc, n);
    assert Indexed(sc, n, t.nodes[n].prefix[i]);
    assert n in CandidatesOf(sc, pattern);
    var v := DfsRecords(t, pattern, n)[0];
    assert v in DfsRecords(t, pattern, n);
    assert v in Offered(t, pattern, CandidatesOf(sc, pattern), offset);
  }

  const USIZE_MAX: nat := 0xFFFF_FFFF_FFFF_FFFF

  /** The stored key length of a record; an unknown one counts as the longest. */
  function KeyLen(lens: map<nat, nat>, id: nat): nat {
    if id in lens then lens[id] else USIZE_MAX
  }

  /** The record passes the depth filter. */
  predicate Shown(lens: map<nat, nat>, depth: Option<nat>, id: nat) {
    id != EMPTY && (depth.None? || KeyLen(lens, id) <= depth.value + 1)
  }

  /** What a search without offset and limit returns. */
  ghost predicate Returned(t: Tree, sc: map<Elem, set<nat>>, lens: map<nat, nat>, pattern: seq<Elem>,
                           depth: Option<nat>, v: nat)
    requires WellFormed(t)
  {
    v in Offered(t, pattern, CandidatesOf(sc, pattern), None) && Shown(lens, depth, v)
  }

  ghost predicate Limited(found: set<nat>, limit: Option<nat>, ids: seq<nat>) {
    && NoRepeats(ids) && (forall v | v in ids :: v in found)
    && |ids| == if limit.Some? && limit.value < |found| then limit.value else |found|
  }

  /** The answer without a depth. */
  ghost predicate AllReturned(found: set<nat>, limit: Option<nat>, r: Result<seq<nat>, SearchError>) {
    if found == {} || limit == Some(0) then r == Failure(NoMatch) else r.Success? && Limited(found, limit, r.value)
  }

  /** The records that pass the depth filter, in their order. */
  ghost function ShownOf(lens: map<nat, nat>, depth: Option<nat>, ids: seq<nat>): seq<nat> {
    if ids == [] then []
    else
      var v := ids[|ids| - 1];
      ShownOf(lens, depth, ids[..|ids| - 1]) + if Shown(lens, depth, v) then [v] else []
  }

  lemma {:induction false} ShownMeans(lens: map<nat, nat>, depth: Option<nat>, ids: seq<nat>)
    ensures forall v :: v in ShownOf(lens, depth, ids) <==> v in ids && Shown(lens, depth, v)
    ensures NoRepeats(ids) ==> NoRepeats(ShownOf(lens, depth, ids))
  {
    if ids != [] {
      var front, v := ids[..|ids| - 1], ids[|ids| - 1];
      assert ids == front + [v];
      ShownMeans(lens, depth, front);
    }
  }

  lemma {:induction false} ShownAll(lens: map<nat, nat>, depth: Option<nat>, ids: seq<nat>)
    ensures |ShownOf(lens, depth, ids)| <= |ids|
    ensures (forall v | v in ids :: Shown(lens, depth, v)) ==> ShownOf(lens, depth, ids) == ids
  {
    if ids != [] {
      var front, v := ids[..|ids| - 1], ids[|ids| - 1];
      assert ids == front + [v];
      ShownAll(lens, depth, front);
    }
  }

  /**
   The answer: as many of the found records as the limit allows, and of these the ones that pass the depth
   filter.
   */
  ghost predicate Answered(lens: map<nat, nat>, found: set<nat>, depth: Option<nat>, limit: Option<nat>,
                           r: Result<seq<nat>, SearchError>) {
    exists ids :: Limited(found, limit, ids) && r == SomeOrNoMatch(ShownOf(lens, depth, ids))
  }

  function SomeOrNoMatch(results: seq<nat>): Result<seq<nat>, SearchError> {
    if results == [] then Failure(NoMatch) else Success(results)
  }

  /** When every found record passes the depth filter, as many are returned as there are and the limit allows. */
  lemma NoneFiltered(lens: map<nat, nat>, found: set<nat>, depth: Option<nat>, limit: Option<nat>,
                     r: Result<seq<nat>, SearchError>)
    requires Answered(lens, found, depth, limit, r) && forall v | v in found :: Shown(lens, depth, v)
    ensures AllReturned(found, limit, r)
  {
    var ids :| Limited(found, limit, ids) && r == SomeOrNoMatch(ShownOf(lens, depth, ids));
    ShownAll(lens, depth, ids);
    assert |ids| == 0 <==> found == {} || limit == Some(0);
  }

  /** No key is longer than the length stored for its record. */
  ghost predicate LensReach(c: map<seq<Elem>, nat>, lens: map<nat, nat>) {
    forall key | key in c :: c[key] in lens && |key| <= lens[c[key]]
  }

  /** Every key of the record has at most `max` elements. */
  ghost predicate AllShort(c: map<seq<Elem>, nat>, id: nat, max: nat) {
    forall key | key in c && c[key] == id :: |key| <= max
  }

  lemma CandidatesIn(nodes: map<nat, Node>, sc: map<Elem, set<nat>>, e: Elem)
    requires Candidates(nodes, sc)
    ensures e in sc ==> forall n | n in sc[e] :: n in nodes
  {
    if e in sc {
      forall n | n in sc[e] ensures n in nodes {
        assert Indexed(sc, n, e);
      }
    }
  }

  /**
   What the candidates in `done` contribute: each record once; everything, unless the limit is reached.
   */
  ghost predicate Gathered(found: set<nat>, limit: Option<nat>, ids: seq<nat>) {
    && NoRepeats(ids) && (limit.Some? ==> |ids| <= limit.value)
    && (forall v | v in ids :: v in found)
    && ((forall v | v in found :: v in ids) || LimitReached(limit, |ids|))
  }

  lemma OfferedSplit(t: Tree, pattern: seq<Elem>, done: set<nat>, n: nat, offset: Option<nat>)
    requires WellFormed(t) && n in t.nodes
    ensures Offered(t, pattern, done + {n}, offset) ==
            Offered(t, pattern, done, offset)
            + if offset.Some? && n < offset.value then {} else set v | v in DfsRecords(t, pattern, n)
  {
  }

  lemma OfferedGrows(t: Tree, pattern: seq<Elem>, done: set<nat>, cands: set<nat>, offset: Option<nat>)
    requires WellFormed(t) && done <= cands
    ensures Offered(t, pattern, done, offset) <= Offered(t, pattern, cands, offset)
  {
  }

  lemma {:induction false} NoRepeatsSize(s: seq<nat>, all: set<nat>)
    requires NoRepeats(s) && forall v | v in s :: v in all
    ensures |s| <= |all| && ((forall v | v in all :: v in s) ==> |s| == |all|)
  {
    if s == [] {
      assert (forall v | v in all :: v in s) ==> all == {};
    } else {
      var front, v := s[..|s| - 1], s[|s| - 1];
      assert s == front + [v];
      NoRepeatsSize(front, all - {v});
    }
  }

  lemma GatheredIsLimited(found: set<nat>, limit: Option<nat>, ids: seq<nat>)
    requires Gathered(found, limit, ids)
    ensures Limited(found, limit, ids)
  {
    NoRepeatsSize(ids, found);
  }

  /** The records of one candidate added to `ids`. */
  ghost predicate Appended(ids: seq<nat>, found: seq<nat>, limit: Option<nat>, ids': seq<nat>) {
    && ids <= ids'
    && (forall v | v in ids' :: v in ids || v in found)
    && ((forall v | v in found :: v in ids') || LimitReached(limit, |ids'|))
  }

  // ---------------------------------------------------------------- the index

  class Index {
    const sharding: nat
    var nodes: map<nat, Node>
    var roots: map<nat, nat>
    var nextId: nat
    var shortcuts: map<Elem, set<nat>>
    var pendingSplits: seq<(nat, Elem)>
    var keyLens: map<nat, nat>
    ghost var contents: map<seq<Elem>, nat>

    /** The storage holds the trie `t`, which stores `contents`; ids are handed out below `nextId`. */
    ghost predicate Rep(t: Tree)
      reads this
    {
      After(t, nodes, roots, sharding, contents) && Candidates(nodes, shortcuts) && IdsBelow(nodes, nextId)
    }

    /** Between two calls every node is indexed and no split event is waiting. */
    ghost predicate Idle(t: Tree)
      reads this
    {
      Rep(t) && Covered(nodes, shortcuts, {}) && pendingSplits == []
    }

    ghost predicate Valid()
      reads this
    {
      LensOk(contents, keyLens) && exists t :: Idle(t)
    }

    constructor (shards: nat)
      ensures Valid() && contents == map[] && sharding == if shards == 0 then 1 else shards
    {
      sharding := if shards == 0 then 1 else shards;
      nodes, roots, nextId, shortcuts, pendingSplits, keyLens := map[], map[], 1, map[], [], map[];
      contents := map[];
      new;
      assert Idle(Tree(map[], map[], sharding, map[], map[], map[]));
    }

    /** The child of `n` whose prefix starts with `x`, or EMPTY. */
    method FindChild(n: nat, x: Elem, ghost t: Tree) returns (c: nat)
      requires Within(t, nodes) && WellFormed(t) && n in t.nodes
      ensures c == EMPTY ==> forall i | 0 <= i < |t.nodes[n].children| :: !StartsWith(t, t.nodes[n].children[i], x)
      ensures c != EMPTY ==> c in t.nodes[n].children && StartsWith(t, c, x)
    {
      var children := nodes[n].children;
      assert ChildrenOk(t, n);
      for i := 0 to |children|
        invariant forall j | 0 <= j < i :: !StartsWith(t, children[j], x)
      {
        var cp := nodes[children[i]].prefix;
        if cp != [] && cp[0] == x {
          return children[i];
        }
      }
      return EMPTY;
    }

    /** How much of the rest of the key the prefix of `n` matches. */
    method Compare(n: nat, key: seq<Elem>, tail: nat, ghost t: Tree) returns (common: nat)
      requires Within(t, nodes) && WellFormed(t) && Reached(t, key, n, tail)
      ensures common <= |t.nodes[n].prefix| && tail + common <= |key|
      ensures Parts(t, key, n, tail + common) && (t.parent[n] != EMPTY ==> common > 0)
    {
      common := CommonLen(nodes[n].prefix, key[tail..]);
      Compared(t, key, n, tail, common);
    }

    /** The loop shared by `insert` and `match`: follow `key` from `top` as far as it goes. */
    method Follow(top: nat, key: seq<Elem>, ghost t: Tree) returns (end: WalkEnd)
      requires Within(t, nodes) && WellFormed(t) && IsTop(t, key, top)
      ensures EndOk(t, key, end)
    {
      var n, tail: nat := top, 0;
      ReachedRoot(t, key);
      while true
        invariant Reached(t, key, n, tail)
        decreases |key| - tail, t.parent[n] == EMPTY
      {
        var common := Compare(n, key, tail, t);
        if common < |nodes[n].prefix| {
          return Splits(n, tail, common);
        }
        tail := tail + common;
        assert t.path[n] == t.path[n][..tail];
        if tail == |key| {
          assert key[..tail] == key;
          return Ends(n);
        }
        var child := FindChild(n, key[tail], t);
        if child == EMPTY {
          MissChild(t, key, n);
          return Leaves(n, tail);
        }
        ReachedChild(t, key, n, child);
        n := child;
      }
    }

    /** Adds a key with its record; an existing key is left alone and reported as `(EMPTY, _)`. */
    method Insert(key: seq<Elem>, index: nat, ghost t: Tree)
      returns (r: Result<(nat, nat), RadixError>, ghost t': Tree, ghost leg: nat)
      requires Idle(t)
      modifies `nodes, `roots, `nextId, `shortcuts, `pendingSplits, `contents
      ensures index == EMPTY ==> r == Failure(InvalidIndex)
      ensures index != EMPTY && key == [] ==> r == Failure(RadixError.NotFound)
      ensures index != EMPTY && key != [] ==> r.Success? && (r.value.0 == EMPTY <==> key in old(contents))
      ensures if r.Success? && r.value.0 != EMPTY then contents == old(contents)[key := index]
              else unchanged(this) && t' == t
      ensures Rep(t')
      ensures r.Success? && r.value.0 != EMPTY ==>
                && Inserted(nodes, shortcuts, pendingSplits, key, r.value.0, r.value.1, leg)
                && Holds(t', r.value.0, key, index) && ReadBefore(t, key, r.value.1)
    {
      leg, t' := EMPTY, t;
      if index == EMPTY {
        return Failure(InvalidIndex), t', leg;
      }
      if key == [] {
        return Failure(RadixError.NotFound), t', leg;
      }
      var id, tail;
      if ShardOf(key[0], sharding) !in roots {
        id, tail, t' := InsertRoot(key, index, t);
        return Success((id, tail)), t', leg;
      }
      var end := Follow(roots[ShardOf(key[0], sharding)], key, t);
      match end
      case Splits(n, k, common) =>
        id, t', leg := InsertSplit(key, index, n, k, common, t);
        return Success((id, k)), t', leg;
      case Ends(n) =>
        if nodes[n].record != EMPTY {
          StoredAt(t, contents, n);
          return Success((EMPTY, |key|)), t', leg;
        }
        t' := InsertRecord(key, index, n, t);
        return Success((n, |key|)), t', leg;
      case Leaves(n, k) =>
        id, t' := InsertLeaf(key, index, n, k, t);
        return Success((id, k)), t', leg;
    }

    method InsertRoot(key: seq<Elem>, index: nat, ghost t: Tree) returns (id: nat, tail: nat, ghost t': Tree)
      requires Idle(t) && key != [] && index != EMPTY && ShardOf(key[0], sharding) !in roots
      modifies `nodes, `roots, `nextId, `shortcuts, `contents
      ensures key !in old(contents) && contents == old(contents)[key := index] && Rep(t')
      ensures id != EMPTY && Inserted(nodes, shortcuts, pendingSplits, key, id, tail, EMPTY)
      ensures Holds(t', id, key, index) && tail == if |key| == 1 then 0 else 1
    {
      var root, s := nextId, ShardOf(key[0], sharding);
      t' := RootStep(t, contents, shortcuts, key, index, root, root + 1);
      var leaf, sc, next := root + 1, shortcuts, root + 1;
      id, tail := root, 0;
      if |key| != 1 {
        sc, next := AddShortcut(shortcuts, key[0], root), root + 2;
        id, tail := leaf, 1;
      }
      nodes, roots, nextId, shortcuts, contents :=
        RootNodes(nodes, key, index, root, leaf), roots[s := root], next, sc, contents[key := index];
    }

    /** The mismatch is inside the prefix of `n`: `split` cuts it there. */
    method InsertSplit(key: seq<Elem>, index: nat, n: nat, tail: nat, common: nat, ghost t: Tree)
      returns (id: nat, ghost t': Tree, ghost leg: nat)
      requires Idle(t) && index != EMPTY && EndOk(t, key, Splits(n, tail, common))
      modifies `nodes, `nextId, `pendingSplits, `contents
      ensures key !in old(contents) && contents == old(contents)[key := index] && Rep(t')
      ensures id != EMPTY && Inserted(nodes, shortcuts, pendingSplits, key, id, tail, leg)
              && Holds(t', id, key, index)
    {
      var suffix := key[tail + common..];
      if suffix == [] {
        id := n;
        t', leg := SplitAt(key, index, n, tail, common, suffix, nextId + 1, nextId, t);
      } else {
        id := nextId;
        t', leg := SplitAt(key, index, n, tail, common, suffix, nextId, nextId + 1, t);
      }
    }

    /** The transaction of `split`, whose callback records the elements of the leg. */
    method SplitAt(key: seq<Elem>, index: nat, n: nat, tail: nat, common: nat, suffix: seq<Elem>, newId: nat,
                   legId: nat, ghost t: Tree)
      returns (ghost t': Tree, ghost leg: nat)
      requires Idle(t) && index != EMPTY && EndOk(t, key, Splits(n, tail, common)) && suffix == key[tail + common..]
      requires nextId <= newId && nextId <= legId && newId != legId && (suffix != [] ==> newId < legId)
      modifies `nodes, `nextId, `pendingSplits, `contents
      ensures key !in old(contents) && contents == old(contents)[key := index] && Rep(t') && leg == legId
      ensures Inserted(nodes, shortcuts, pendingSplits, key, if suffix == [] then n else newId, tail, leg)
      ensures Holds(t', if suffix == [] then n else newId, key, index)
    {
      leg := legId;
      assert Free(nodes, newId) && Free(nodes, legId);
      t' := SplitStep(t, contents, shortcuts, key, n, tail, common, suffix, index, newId, legId);
      nodes, nextId, pendingSplits, contents :=
        SplitNodes(nodes, n, common, suffix, index, newId, legId), legId + 1,
          LegEvents(legId, nodes[n].prefix[common..]), contents[key := index];
    }

    method InsertRecord(key: seq<Elem>, index: nat, n: nat, ghost t: Tree) returns (ghost t': Tree)
      requires Idle(t) && index != EMPTY && EndOk(t, key, Ends(n)) && nodes[n].record == EMPTY
      modifies `nodes, `contents
      ensures key !in old(contents) && contents == old(contents)[key := index] && Rep(t')
      ensures n != EMPTY && Inserted(nodes, shortcuts, pendingSplits, key, n, |key|, EMPTY) && Holds(t', n, key, index)
    {
      t' := RecordStep(t, contents, shortcuts, n, index);
      forall k: nat | nextId <= k ensures Free(t'.nodes, k) {
        assert Free(nodes, k);
      }
      nodes, contents := nodes[n := nodes[n].(record := index)], contents[key := index];
    }

    method InsertLeaf(key: seq<Elem>, index: nat, n: nat, tail: nat, ghost t: Tree) returns (id: nat, ghost t': Tree)
      requires Idle(t) && index != EMPTY && EndOk(t, key, Leaves(n, tail))
      modifies `nodes, `nextId, `contents
      ensures key !in old(contents) && contents == old(contents)[key := index] && Rep(t')
      ensures id != EMPTY && Inserted(nodes, shortcuts, pendingSplits, key, id, tail, EMPTY)
              && Holds(t', id, key, index)
    {
      t' := LeafStep(t, contents, shortcuts, key, n, index, nextId);
      id := nextId;
      nodes, nextId, contents := ExtendNodes(nodes, n, key[tail..], index, id), id + 1, contents[key := index];
    }

    /** `insert_chain`: an index entry for a new key; an existing key keeps its record. */
    method InsertChain(index: nat, key: seq<Elem>) returns (r: Result<(), SearchError>)
      requires Valid()
      modifies this
      ensures Valid()
      ensures r == if key == [] then Failure(NoMatch)
                   else if index == EMPTY then Failure(BadIndex)
                   else if key in old(contents) then Failure(Duplicated)
                   else Success(())
      ensures contents == if r.Success? then old(contents)[key := index] else old(contents)
      ensures keyLens == if r.Success? then old(keyLens)[index := |key|] else old(keyLens)
    {
      if key == [] {
        return Failure(NoMatch);
      }
      ghost var t :| Idle(t);
      ghost var c, lens := contents, keyLens;
      var at, t', leg := Insert(key, index, t);
      if at.Failure? {
        assert Idle(t);
        return Failure(BadIndex);
      }
      var (id, tail) := at.value;
      if id == EMPTY {
        assert Idle(t);
        pendingSplits := [];
        return Failure(Duplicated);
      }
      LensStep(c, lens, key, index);
      FlushShortcuts(index, key, id, tail, t', leg);
      assert Idle(t');
      return Success(());
    }

    /** The second half of `insert_chain`, after the trie has committed. */
    method FlushShortcuts(index: nat, key: seq<Elem>, id: nat, tail: nat, ghost t: Tree, ghost leg: nat)
      requires Rep(t) && Inserted(nodes, shortcuts, pendingSplits, key, id, tail, leg)
      modifies `shortcuts, `pendingSplits, `keyLens
      ensures Idle(t) && keyLens == old(keyLens)[index := |key|]
    {
      ghost var sc := shortcuts;
      AddEvents(pendingSplits);
      ghost var sc1 := shortcuts;
      AddEvents(LegEvents(id, key[tail..]));
      InsertedCovered(nodes, sc, pendingSplits, key, id, tail, leg, sc1, shortcuts);
      keyLens, pendingSplits := keyLens[index := |key|], [];
    }

    method AddEvents(events: seq<(nat, Elem)>)
      modifies `shortcuts
      ensures Grown(old(shortcuts), shortcuts, events)
    {
      for k := 0 to |events|
        invariant Grown(old(shortcuts), shortcuts, events[..k])
      {
        var (n, e) := events[k];
        ghost var sc := shortcuts;
        shortcuts := AddShortcut(shortcuts, e, n);
        GrownSnoc(old(shortcuts), sc, events[..k], n, e);
        assert events[..k + 1] == events[..k] + [(n, e)];
      }
      assert events[..|events|] == events;
    }

    /** Where a walk along `key` begins, EMPTY for nowhere; `u` is the trie it walks in, which stores `c`. */
    method WalkTop(begin: nat, key: seq<Elem>, ghost t: Tree)
      returns (top: nat, ghost u: Tree, ghost c: map<seq<Elem>, nat>)
      requires Idle(t) && key != [] && (begin != EMPTY ==> begin in nodes)
      ensures Within(u, nodes) && Good(u, c) && c == KeysFrom(t, contents, begin)
      ensures if top == EMPTY then ShardOf(key[0], u.sharding) !in u.roots else IsTop(u, key, top)
    {
      if begin == EMPTY {
        var s := ShardOf(key[0], sharding);
        assert s in roots ==> RootOk(t, s);
        return if s in roots then roots[s] else EMPTY, t, contents;
      }
      RerootGood(t, contents, begin);
      return begin, Reroot(t, begin), KeysFrom(t, contents, begin);
    }

    /** The record of `key` among the keys that go through `begin`. */
    method Match(begin: nat, key: seq<Elem>) returns (r: Result<nat, RadixError>)
      requires Valid() && (begin != EMPTY ==> begin in nodes)
      ensures exists t :: Idle(t) && r == Lookup(KeysFrom(t, contents, begin), key)
    {
      ghost var t :| Idle(t);
      r := MatchIn(begin, key, t);
    }

    method MatchIn(begin: nat, key: seq<Elem>, ghost t: Tree) returns (r: Result<nat, RadixError>)
      requires Idle(t) && (begin != EMPTY ==> begin in nodes)
      ensures r == Lookup(KeysFrom(t, contents, begin), key)
    {
      if key == [] {
        EmptyNotStored(t, contents, begin);
        return Failure(RadixError.NotFound);
      }
      var top, u, c := WalkTop(begin, key, t);
      if top == EMPTY {
        StoredKey(u, c, key);
        return Failure(RadixError.NotFound);
      }
      r := MatchFrom(top, key, u, c);
    }

    /** The walk of `match`. */
    method MatchFrom(top: nat, key: seq<Elem>, ghost u: Tree, ghost c: map<seq<Elem>, nat>)
      returns (r: Result<nat, RadixError>)
      requires Within(u, nodes) && Good(u, c) && IsTop(u, key, top)
      ensures r == Lookup(c, key)
    {
      var end := Follow(top, key, u);
      EndDecides(u, c, key, end);
      if end.Ends? && nodes[end.n].record != EMPTY {
        return Success(nodes[end.n].record);
      }
      return Failure(RadixError.NotFound);
    }

    /** All keys through `begin` that begin with `prefix`. */
    method SearchPrefix(begin: nat, prefix: seq<Elem>) returns (results: seq<(seq<Elem>, nat)>)
      requires Valid() && (begin != EMPTY ==> begin in nodes)
      ensures if prefix == [] then results == []
              else exists t :: Idle(t) && PrefixAnswer(KeysFrom(t, contents, begin), prefix, results)
    {
      if prefix == [] {
        return [];
      }
      ghost var t :| Idle(t);
      var top, u, c := WalkTop(begin, prefix, t);
      if top == EMPTY {
        NoRootNoKeys(u, c, prefix);
        return [];
      }
      var found := PrefixNode(top, prefix, u, c);
      if found.None? {
        return [];
      }
      results := CollectAll(found.value.0, found.value.1, u, c, prefix);
    }

    /** The walk of `search_prefix`: the node in whose prefix `p` ends, with its path. */
    method PrefixNode(top: nat, p: seq<Elem>, ghost t: Tree, ghost c: map<seq<Elem>, nat>)
      returns (r: Option<(nat, seq<Elem>)>)
      requires Within(t, nodes) && Good(t, c) && IsTop(t, p, top)
      ensures r.None? ==> PrefixAnswer(c, p, [])
      ensures r.Some? ==> Owns(t, r.value.0, p) && r.value.1 == t.path[r.value.0]
    {
      var n, tail: nat := top, 0;
      var matchedPath: seq<Elem> := [];
      ReachedRoot(t, p);
      while true
        invariant Along(t, p, n, tail, matchedPath)
        decreases |p| - tail, t.parent[n] == EMPTY
      {
        var common := Compare(n, p, tail, t);
        AlongPath(t, p, n, tail, matchedPath);
        matchedPath := matchedPath + nodes[n].prefix;
        if common == |p| - tail {
          PrefixHit(t, p, n);
          return Some((n, matchedPath));
        }
        if common < |nodes[n].prefix| {
          PrefixMiss(t, c, p, n, tail + common);
          return None;
        }
        tail := tail + common;
        ReadThrough(t, p, n, tail);
        var child := FindChild(n, p[tail], t);
        if child == EMPTY {
          NoChild(t, c, p, n);
          return None;
        }
        AlongChild(t, p, n, child);
        n := child;
      }
    }

    /** Every key below `root`, whose path is `rootPath`, by an explicit stack. */
    method CollectAll(root: nat, rootPath: seq<Elem>, ghost t: Tree, ghost c: map<seq<Elem>, nat>,
                      ghost prefix: seq<Elem>)
      returns (results: seq<(seq<Elem>, nat)>)
      requires Within(t, nodes) && Good(t, c) && root in t.nodes && rootPath == t.path[root]
      requires prefix != [] && Owns(t, root, prefix)
      ensures PrefixAnswer(c, prefix, results)
    {
      results := [];
      var stack: seq<(nat, seq<Elem>)> := [(root, rootPath)];
      ghost var order: seq<nat>, seen: set<nat> := [], {};
      SweepStart(t, root);
      assert Tops(stack) == [root];
      while stack != []
        invariant Collecting(t, root, stack, order, seen, results)
        decreases t.nodes.Keys - seen
      {
        var (n, path) := stack[|stack| - 1];
        CollectingTop(t, root, stack, order, seen, results);
        ghost var before, had := stack, results;
        stack := stack[..|stack| - 1];
        if nodes[n].record != EMPTY {
          results := results + [(path, nodes[n].record)];
        }
        stack := PushChildren(n, path, stack, t);
        order := CollectingStep(t, root, before, order, seen, had, stack);
        seen := seen + {n};
      }
      SweepEnd(t, root, seen);
      ListedAnswers(t, c, prefix, root, order, results);
    }

    method PushChildren(n: nat, path: seq<Elem>, stack: seq<(nat, seq<Elem>)>, ghost t: Tree)
      returns (r: seq<(nat, seq<Elem>)>)
      requires Within(t, nodes) && WellFormed(t) && n in t.nodes && path == t.path[n]
      ensures Pushed(t, n, stack, r)
    {
      r := stack;
      var children := nodes[n].children;
      assert ChildrenOk(t, n);
      for k := 0 to |children|
        invariant |r| == |stack| + k && r[..|stack|] == stack
        invariant forall i | |stack| <= i < |r| ::
                    r[i].0 == children[i - |stack|] && r[i].0 in t.nodes && r[i].1 == t.path[r[i].0]
      {
        assert NodeOk(t, children[k]);
        r := r + [(children[k], path + nodes[children[k]].prefix)];
      }
    }

    // ---------------------------------------------------------------- search_dfs

    /** The two inner loops of `search_dfs`: the next continuation and child to descend to. */
    method FindDescent(pattern: seq<Elem>, conts: seq<nat>, children: seq<nat>, cont: nat, child: nat, ghost t: Tree)
      returns (r: Option<(nat, nat)>)
      requires t.nodes == nodes && forall i | 0 <= i < |children| :: children[i] in nodes
      ensures r == NextDescent(t, pattern, conts, children, cont, child)
    {
      var ci: nat, chi: nat := cont, child;
      while ci < |conts|
        invariant NextDescent(t, pattern, conts, children, ci, chi) ==
                  NextDescent(t, pattern, conts, children, cont, child)
      {
        var pp := conts[ci];
        if 0 < pp < |pattern| {
          while chi < |children|
            invariant NextDescent(t, pattern, conts, children, ci, chi) ==
                      NextDescent(t, pattern, conts, children, cont, child)
          {
            var cp := nodes[children[chi]].prefix;
            if cp != [] && cp[0] == pattern[pp] {
              return Some((ci, chi));
            }
            chi := chi + 1;
          }
        }
        ci, chi := ci + 1, 0;
      }
      return None;
    }

    /** One iteration of `search_dfs` in its searching state. */
    method SearchOnce(pattern: seq<Elem>, m: Matcher, frames: seq<DfsFrame>, ghost t: Tree)
      returns (r: Option<DfsState>)
      requires t.nodes == nodes && WellFormed(t) && FramesIn(t, frames)
      ensures r == SearchStep(t, pattern, m, frames)
    {
      var stack := frames;
      while stack != []
        invariant FramesIn(t, stack) && SearchStep(t, pattern, m, stack) == SearchStep(t, pattern, m, frames)
      {
        var frame := stack[|stack| - 1];
        stack := stack[..|stack| - 1];
        var result := m(nodes[frame.node].prefix, pattern, frame.pos);
        if result.found {
          return Some(DfsState.Collect(frame.node, [(frame.node, 0)]));
        }
        var children := nodes[frame.node].children;
        assert ChildrenOk(t, frame.node);
        var at := FindDescent(pattern, result.continuations, children, frame.cont, frame.child, t);
        if at.Some? {
          var (ci, chi) := at.value;
          return Some(DfsState.Search(stack + [frame.(cont := ci, child := chi + 1),
                                               DfsFrame(children[chi], result.continuations[ci], 0, 0)]));
        }
      }
      return None;
    }

    /** One iteration of `search_dfs` in its collecting state, on a non-empty stack. */
    method CollectOnce(stack: seq<(nat, nat)>, records: seq<nat>, ghost t: Tree)
      returns (stack': seq<(nat, nat)>, records': seq<nat>)
      requires t.nodes == nodes && WellFormed(t) && stack != [] && EntriesIn(t, stack)
      ensures stack' == CollectStep(t, stack) && records' == records + Recorded(t, stack[|stack| - 1].0)
    {
      var (n, ci) := stack[|stack| - 1];
      stack', records' := stack[..|stack| - 1], records;
      if nodes[n].record != EMPTY {
        records' := records + [nodes[n].record];
      }
      if ci < |nodes[n].children| {
        stack' := stack' + [(n, ci + 1), (nodes[n].children[ci], 0)];
      }
    }

    /**
     The substring walk from `begin` (EMPTY: the root of the shard of the first element), or from
     a checkpoint. The deadline expires after `budget` steps; None is no deadline.
     */
    method SearchDfs(begin: nat, pattern: seq<Elem>, m: Matcher, resume: Option<DfsCheckpoint>, budget: Option<nat>,
                     ghost t: Tree)
      returns (r: Result<(seq<nat>, Option<DfsCheckpoint>), RadixError>)
      requires t.nodes == nodes && t.roots == roots && t.sharding == sharding && WellFormed(t)
      requires begin != EMPTY ==> begin in nodes
      requires resume.Some? ==> StateIn(t, resume.value.state)
      ensures pattern == [] ==> r == Failure(RadixError.NotFound)
      ensures pattern != [] ==>
                r == match StartAt(t, begin, pattern, resume)
                     case None => Success(([], None))
                     case Some(cp) => Success(Walked(t, pattern, m, cp, budget))
    {
      if pattern == [] {
        return Failure(RadixError.NotFound);
      }
      var cp;
      if resume.Some? {
        cp := resume.value;
      } else {
        var node := begin;
        if begin == EMPTY {
          var s := ShardOf(pattern[0], sharding);
          if s !in roots {
            return Success(([], None));
          }
          assert RootOk(t, s);
          node := roots[s];
        }
        cp := DfsCheckpoint(Some(DfsState.Search([DfsFrame(node, 0, 0, 0)])), []);
      }
      var w := Walk(pattern, m, cp, budget, t);
      return Success(w);
    }

    /** The outer loop of `search_dfs`. */
    method Walk(pattern: seq<Elem>, m: Matcher, cp: DfsCheckpoint, budget: Option<nat>, ghost t: Tree)
      returns (r: (seq<nat>, Option<DfsCheckpoint>))
      requires t.nodes == nodes && WellFormed(t) && StateIn(t, cp.state)
      ensures r == Walked(t, pattern, m, cp, budget)
    {
      var cur, left := cp, budget;
      while cur.state.Some?
        invariant StateIn(t, cur.state) && Finish(t, pattern, m, cur) == Finish(t, pattern, m, cp)
        invariant if budget.None? then left.None?
                  else left.Some? && Run(t, pattern, m, cur, left.value) == Run(t, pattern, m, cp, budget.value)
        decreases Phase(cur), Cost(t, pattern, m, cur)
      {
        if left == Some(0) {
          return ([], Some(cur));
        }
        StepDecreases(t, pattern, m, cur);
        match cur.state.value {
          case Search(frames) =>
            var next := SearchOnce(pattern, m, frames, t);
            cur := DfsCheckpoint(next, cur.records);
          case Collect(root, stack) =>
            if stack == [] {
              cur := DfsCheckpoint(None, cur.records);
            } else {
              var stack', records' := CollectOnce(stack, cur.records, t);
              cur := DfsCheckpoint(Some(DfsState.Collect(root, stack')), records');
            }
        }
        left := if left.None? then None else Some(left.value - 1);
      }
      if left.Some? {
        FinishedStays(t, pattern, m, cur, left.value);
      }
      return (cur.records, None);
    }

    // ---------------------------------------------------------------- search

    /** Adds the records that were not seen before, up to the limit. */
    method AddNew(found: seq<nat>, ids: seq<nat>, seen: set<nat>, limit: Option<nat>)
      returns (ids': seq<nat>, seen': set<nat>)
      requires NoRepeats(ids) && (forall v :: v in seen <==> v in ids) && !LimitReached(limit, |ids|)
      ensures NoRepeats(ids') && (forall v :: v in seen' <==> v in ids') && (limit.Some? ==> |ids'| <= limit.value)
      ensures Appended(ids, found, limit, ids')
    {
      ids', seen' := ids, seen;
      for k := 0 to |found|
        invariant NoRepeats(ids') && (forall v :: v in seen' <==> v in ids') && !LimitReached(limit, |ids'|)
        invariant ids <= ids' && (forall v | v in ids' :: v in ids || v in found)
        invariant forall i | 0 <= i < k :: found[i] in ids'
      {
        if found[k] !in seen' {
          ids', seen' := ids' + [found[k]], seen' + {found[k]};
          if LimitReached(limit, |ids'|) {
            break;
          }
        }
      }
    }

    /** The candidates in any order, each walked from its own node. */
    method CandidateRecords(pattern: seq<Elem>, cands: set<nat>, offset: Option<nat>, limit: Option<nat>, ghost t: Tree)
      returns (ids: seq<nat>)
      requires t.nodes == nodes && t.roots == roots && t.sharding == sharding && WellFormed(t)
      requires pattern != [] && forall n | n in cands :: n in nodes
      ensures Limited(Offered(t, pattern, cands, offset), limit, ids)
    {
      ids := [];
      var seen: set<nat>, rest := {}, cands;
      ghost var done: set<nat> := {};
      while rest != {}
        invariant done + rest == cands && Gathered(Offered(t, pattern, done, offset), limit, ids)
        invariant forall v :: v in seen <==> v in ids
        decreases rest
      {
        var n :| n in rest;
        rest := rest - {n};
        OfferedSplit(t, pattern, done, n, offset);
        if offset.Some? && n < offset.value {
          done := done + {n};
          continue;
        }
        if LimitReached(limit, |ids|) {
          OfferedGrows(t, pattern, done, cands, offset);
          break;
        }
        var r := SearchDfs(n, pattern, KmpCallback, None, None, t);
        ids, seen := AddNew(r.value.0, ids, seen, limit);
        done := done + {n};
      }
      GatheredIsLimited(Offered(t, pattern, cands, offset), limit, ids);
    }

    /** Drops the records whose key is longer than `depth + 1` elements, up to the limit. */
    method Resolve(ids: seq<nat>, depth: Option<nat>, limit: Option<nat>) returns (results: seq<nat>)
      requires limit.Some? ==> |ids| <= limit.value
      ensures results == ShownOf(keyLens, depth, ids)
    {
      results := [];
      for k := 0 to |ids|
        invariant results == ShownOf(keyLens, depth, ids[..k])
      {
        var rid := ids[k];
        assert ids[..k + 1][..k] == ids[..k];
        if rid == EMPTY || (depth.Some? && KeyLen(keyLens, rid) > depth.value + 1) {
          continue;
        }
        results := results + [rid];
        if LimitReached(limit, |results|) {
          ShownAll(keyLens, depth, ids[..k + 1]);
          assert ids[..k + 1] == ids;
          break;
        }
      }
      assert ids[..|ids|] == ids;
    }

    /** The records of stored keys that contain the pattern. */
    method Search(pattern: seq<Elem>, depth: Option<nat>, offset: Option<nat>, limit: Option<nat>)
      returns (r: Result<seq<nat>, SearchError>, ghost t: Tree)
      requires Valid()
      ensures Idle(t)
      ensures Answered(keyLens, Offered(t, pattern, CandidatesOf(shortcuts, pattern), offset), depth, limit, r)
      ensures r.Success? ==>
                r.value != [] && NoRepeats(r.value) && (forall v | v in r.value :: MatchedBy(contents, pattern, v))
      ensures r.Success? ==> forall v | v in r.value :: MatchedFrom(t, contents, pattern, offset, v)
      ensures r.Success? && depth.Some? ==> forall v | v in r.value :: ShortEnough(contents, v, depth.value + 1)
      ensures r.Success? && depth.Some? && LensReach(contents, keyLens) ==>
                forall v | v in r.value :: AllShort(contents, v, depth.value + 1)
      ensures r.Success? && limit.Some? ==> |r.value| <= limit.value
      ensures depth.None? ==> AllReturned(Offered(t, pattern, CandidatesOf(shortcuts, pattern), offset), limit, r)
      ensures depth.None? && limit != Some(0) && pattern != [] && StartsFrom(t, contents, pattern, offset) ==>
                r.Success?
      ensures depth.None? && offset.None? && limit != Some(0) ==>
                (r.Success? <==> pattern != [] && SomeKeyContains(contents, pattern))
    {
      t :| Idle(t);
      r := SearchIn(pattern, depth, offset, limit, t);
      SearchSound(t, contents, shortcuts, keyLens, pattern, depth, offset, limit, r);
      if depth.None? {
        SearchComplete(t, contents, shortcuts, keyLens, pattern, offset, limit, r);
      }
    }

    /** The search in the trie `t`. */
    method SearchIn(pattern: seq<Elem>, depth: Option<nat>, offset: Option<nat>, limit: Option<nat>, ghost t: Tree)
      returns (r: Result<seq<nat>, SearchError>)
      requires Idle(t)
      ensures Answered(keyLens, Offered(t, pattern, CandidatesOf(shortcuts, pattern), offset), depth, limit, r)
    {
      ghost var found := Offered(t, pattern, CandidatesOf(shortcuts, pattern), offset);
      if pattern == [] {
        assert found == {} && Limited(found, limit, []) && ShownOf(keyLens, depth, []) == [];
        return Failure(NoMatch);
      }
      var cands := if pattern[0] in shortcuts then shortcuts[pattern[0]] else {};
      CandidatesIn(nodes, shortcuts, pattern[0]);
      var ids := CandidateRecords(pattern, cands, offset, limit, t);
      if ids == [] {
        assert Limited(found, limit, ids) && ShownOf(keyLens, depth, ids) == [];
        return Failure(NoMatch);
      }
      var results := Resolve(ids, depth, limit);
      if results == [] {
        return Failure(NoMatch);
      }
      return Success(results);
    }
  }

  // ---------------------------------------------------------------- what a search means

  lemma SearchSound(t: Tree, c: map<seq<Elem>, nat>, sc: map<Elem, set<nat>>, lens: map<nat, nat>, pattern: seq<Elem>,
                    depth: Option<nat>, offset: Option<nat>, limit: Option<nat>, r: Result<seq<nat>, SearchError>)
    requires Good(t, c) && LensOk(c, lens)
    requires Answered(lens, Offered(t, pattern, CandidatesOf(sc, pattern), offset), depth, limit, r)
    ensures r.Success? ==> r.value != [] && NoRepeats(r.value) && (forall v | v in r.value :: MatchedBy(c, pattern, v))
    ensures r.Success? ==> forall v | v in r.value :: MatchedFrom(t, c, pattern, offset, v)
    ensures r.Success? && depth.Some? ==> forall v | v in r.value :: ShortEnough(c, v, depth.value + 1)
    ensures r.Success? && depth.Some? && LensReach(c, lens) ==>
              forall v | v in r.value :: AllShort(c, v, depth.value + 1)
    ensures r.Success? && limit.Some? ==> |r.value| <= limit.value
  {
    if r.Success? {
      AnswerParts(lens, Offered(t, pattern, CandidatesOf(sc, pattern), offset), depth, limit, r);
      forall v | v in r.value
        ensures MatchedBy(c, pattern, v) && MatchedFrom(t, c, pattern, offset, v)
        ensures depth.Some? ==> ShortEnough(c, v, depth.value + 1)
        ensures depth.Some? && LensReach(c, lens) ==> AllShort(c, v, depth.value + 1)
      {
        ResultSound(t, c, sc, lens, pattern, depth, offset, v);
      }
    }
  }

  lemma AnswerParts(lens: map<nat, nat>, found: set<nat>, depth: Option<nat>, limit: Option<nat>,
                    r: Result<seq<nat>, SearchError>)
    requires Answered(lens, found, depth, limit, r) && r.Success?
    ensures r.value != [] && NoRepeats(r.value) && (limit.Some? ==> |r.value| <= limit.value)
    ensures forall v | v in r.value :: v in found && Shown(lens, depth, v)
  {
    var ids :| Limited(found, limit, ids) && r.value == ShownOf(lens, depth, ids);
    ShownMeans(lens, depth, ids);
    ShownAll(lens, depth, ids);
  }

  lemma ResultSound(t: Tree, c: map<seq<Elem>, nat>, sc: map<Elem, set<nat>>, lens: map<nat, nat>, pattern: seq<Elem>,
                    depth: Option<nat>, offset: Option<nat>, v: nat)
    requires Good(t, c) && LensOk(c, lens) && Shown(lens, depth, v)
    requires v in Offered(t, pattern, CandidatesOf(sc, pattern), offset)
    ensures MatchedBy(c, pattern, v) && MatchedFrom(t, c, pattern, offset, v)
    ensures depth.Some? ==> ShortEnough(c, v, depth.value + 1)
    ensures depth.Some? && LensReach(c, lens) ==> AllShort(c, v, depth.value + 1)
  {
    OfferedSound(t, c, pattern, CandidatesOf(sc, pattern), offset, v);
    var key :| key in c && c[key] == v && Occurs(pattern, key);
    assert LenOf(c, v, lens[v]);
  }

  /** Without a depth everything that is found passes the filter. */
  lemma SearchComplete(t: Tree, c: map<seq<Elem>, nat>, sc: map<Elem, set<nat>>, lens: map<nat, nat>,
                       pattern: seq<Elem>, offset: Option<nat>, limit: Option<nat>, r: Result<seq<nat>, SearchError>)
    requires Good(t, c) && Covered(t.nodes, sc, {})
    requires Answered(lens, Offered(t, pattern, CandidatesOf(sc, pattern), offset), None, limit, r)
    ensures AllReturned(Offered(t, pattern, CandidatesOf(sc, pattern), offset), limit, r)
    ensures limit != Some(0) && pattern != [] && StartsFrom(t, c, pattern, offset) ==> r.Success?
    ensures offset.None? && limit != Some(0) ==> (r.Success? <==> pattern != [] && SomeKeyContains(c, pattern))
  {
    var found := Offered(t, pattern, CandidatesOf(sc, pattern), offset);
    forall v | v in found ensures Shown(lens, None, v) && MatchedBy(c, pattern, v) {
      OfferedSound(t, c, pattern, CandidatesOf(sc, pattern), offset, v);
    }
    NoneFiltered(lens, found, None, limit, r);
    if offset.None? && pattern != [] && SomeKeyContains(c, pattern) {
      SomeStart(t, c, pattern);
    }
    if pattern != [] && StartsFrom(t, c, pattern, offset) {
      var n: nat, key: seq<Elem>, q: nat :| StartsIn(t, c, pattern, n, key, q) && (offset.Some? ==> n >= offset.value);
      OfferedComplete(t, c, sc, pattern, offset, n, key, q);
    }
  }

  // ---------------------------------------------------------------- the depth filter

  /** A search for the prefix of a node that carries a record finds that record. */
  lemma OwnPrefixFound(t: Tree, n: nat)
    requires WellFormed(t) && n in t.nodes && t.nodes[n].prefix != [] && t.nodes[n].record != EMPTY
    ensures t.nodes[n].record in DfsRecords(t, t.nodes[n].prefix, n)
  {
    var p, v, frames := t.nodes[n].prefix, t.nodes[n].record, [DfsFrame(n, 0, 0, 0)];
    assert OccursAt(p, p, 0);
    KmpFresh(p, p);
    assert SearchStep(t, p, KmpCallback, frames) == Some(DfsState.Collect(n, [(n, 0)]));
    assert RecordOf(t, n, v) && Below(t, n, n);
    CollectsSubtree(t, p, KmpCallback, n, v);
  }

  /** In every search with a depth, every key of a returned record that contains the pattern is short enough. */
  ghost predicate DepthRespected(t: Tree, c: map<seq<Elem>, nat>, sc: map<Elem, set<nat>>, lens: map<nat, nat>)
    requires WellFormed(t)
  {
    forall pattern, depth: nat, v, key
      | Returned(t, sc, lens, pattern, Some(depth), v) && key in c && c[key] == v && Occurs(pattern, key) ::
        |key| <= depth + 1
  }

  /** A stored key that is longer than the length stored for its record, and the search that returns it. */
  lemma LongKeyReturned(t: Tree, c: map<seq<Elem>, nat>, sc: map<Elem, set<nat>>, lens: map<nat, nat>, key: seq<Elem>)
    returns (pattern: seq<Elem>, depth: nat)
    requires Good(t, c) && Covered(t.nodes, sc, {}) && LensOk(c, lens) && key in c && |key| > lens[c[key]]
    ensures Returned(t, sc, lens, pattern, Some(depth), c[key]) && Occurs(pattern, key) && |key| > depth + 1
  {
    var v := c[key];
    var n := HolderOf(t, c, key);
    assert LenOf(c, v, lens[v]);
    var other :| other in c && c[other] == v && |other| == lens[v];
    StoredKey(t, c, other);
    pattern, depth := t.nodes[n].prefix, lens[v] - 1;
    assert NodeOk(t, n);
    PathEnds(t, n);
    assert OccursAt(pattern, key, Start(t, n));
    OwnPrefixOffered(t, sc, n);
  }

  lemma OwnPrefixOffered(t: Tree, sc: map<Elem, set<nat>>, n: nat)
    requires WellFormed(t) && Covered(t.nodes, sc, {}) && n in t.nodes && t.nodes[n].prefix != []
             && t.nodes[n].record != EMPTY
    ensures t.nodes[n].record in Offered(t, t.nodes[n].prefix, CandidatesOf(sc, t.nodes[n].prefix), None)
  {
    OwnPrefixFound(t, n);
    assert CoveredNode(t.nodes, sc, n);
    assert Indexed(sc, n, t.nodes[n].prefix[0]);
  }

  /** The depth limit holds for all matching keys exactly when no key is longer than the length of its record. */
  lemma DepthExactly(t: Tree, c: map<seq<Elem>, nat>, sc: map<Elem, set<nat>>, lens: map<nat, nat>)
    requires Good(t, c) && Covered(t.nodes, sc, {}) && LensOk(c, lens)
    ensures DepthRespected(t, c, sc, lens) <==> LensReach(c, lens)
  {
    if !LensReach(c, lens) {
      var key :| key in c && !(c[key] in lens && |key| <= lens[c[key]]);
      var pattern, depth := LongKeyReturned(t, c, sc, lens, key);
    }
  }

  /** One record for two keys: the second sets the length to 1, and depth 1 returns a key of four elements. */
  method DepthOverrun(shards: nat) returns (ix: Index, r: Result<seq<nat>, SearchError>)
    ensures ix.contents == map[[1, 2, 3, 4] := 7, [9] := 7] && r == Success([7])
  {
    ix := new Index(shards);
    var a := ix.InsertChain(7, [1, 2, 3, 4]);
    var b := ix.InsertChain(7, [9]);
    ghost var t;
    r, t := ix.Search([2, 3], Some(1), None, None);
    OverrunAnswer(t, ix.contents, ix.shortcuts, ix.keyLens, r);
  }

  lemma OverrunAnswer(t: Tree, c: map<seq<Elem>, nat>, sc: map<Elem, set<nat>>, lens: map<nat, nat>,
                      r: Result<seq<nat>, SearchError>)
    requires Good(t, c) && Covered(t.nodes, sc, {}) && c == map[[1, 2, 3, 4] := 7, [9] := 7]
    requires 7 in lens && lens[7] == 1
    requires Answered(lens, Offered(t, [2, 3], CandidatesOf(sc, [2, 3]), None), Some(1), None, r)
    ensures r == Success([7])
  {
    var found := Offered(t, [2, 3], CandidatesOf(sc, [2, 3]), None);
    assert [1, 2, 3, 4][1..3] == [2, 3];
    assert OccursAt([2, 3], [1, 2, 3, 4], 1);
    FoundByKey(t, c, sc, [2, 3], [1, 2, 3, 4]);
    forall v | v in found ensures v == 7 {
      OfferedSound(t, c, [2, 3], CandidatesOf(sc, [2, 3]), None, v);
    }
    OnlyFound(lens, found, Some(1), r, 7);
  }

  lemma FoundByKey(t: Tree, c: map<seq<Elem>, nat>, sc: map<Elem, set<nat>>, pattern: seq<Elem>, key: seq<Elem>)
    requires Good(t, c) && Covered(t.nodes, sc, {}) && pattern != [] && key in c && Occurs(pattern, key)
    ensures Offered(t, pattern, CandidatesOf(sc, pattern), None) != {}
  {
    var n, q := OccurrenceStarts(t, c, pattern, key);
    OfferedComplete(t, c, sc, pattern, None, n, key, q);
  }

  lemma OnlyFound(lens: map<nat, nat>, found: set<nat>, depth: Option<nat>, r: Result<seq<nat>, SearchError>, v: nat)
    requires Answered(lens, found, depth, None, r) && Shown(lens, depth, v)
    requires found != {} && forall x | x in found :: x == v
    ensures r == Success([v])
  {
    NoneFiltered(lens, found, depth, None, r);
    forall i | 0 <= i < |r.value| ensures r.value[i] == v {
      assert r.value[i] in r.value;
    }
    OnlyOne(r.value, v);
  }

  lemma OnlyOne(s: seq<nat>, v: nat)
    requires NoRepeats(s) && s != [] && forall i | 0 <= i < |s| :: s[i] == v
    ensures s == [v]
  {
    assert s[0] == v && s[|s| - 1] == v;
  }

  lemma NoRootNoKeys(t: Tree, c: map<seq<Elem>, nat>, p: seq<Elem>)
    requires Good(t, c) && p != [] && ShardOf(p[0], t.sharding) !in t.roots
    ensures PrefixAnswer(c, p, [])
  {
    forall key | key in c ensures !(p <= key) {
      StoredKey(t, c, key);
    }
  }

  lemma SweepTop(t: Tree, root: nat, rest: seq<nat>, n: nat, seen: set<nat>)
    requires Domains(t) && Sweep(t, root, rest + [n], seen)
    ensures n in t.nodes && n !in seen
  {
    assert (rest + [n])[|rest|] == n;
    assert n in seen ==> !Below(t, (rest + [n])[|rest|], n);
  }

  lemma SweepEnd(t: Tree, root: nat, seen: set<nat>)
    requires Domains(t) && Sweep(t, root, [], seen)
    ensures forall m | Below(t, root, m) :: m in seen
    ensures forall m | m in seen :: Below(t, root, m)
  {
    forall m | Below(t, root, m) ensures m in seen {
      assert m !in seen ==> RadixSubtree.Pending(t, [], m);
    }
  }

  // ---------------------------------------------------------------- whole runs

  /** The map that a run of `insert_chain(index, key)` calls builds: the first valid call for a key wins. */
  ghost function FirstWins(ops: seq<(nat, seq<Elem>)>): map<seq<Elem>, nat> {
    if ops == [] then map[]
    else
      var c, (index, key) := FirstWins(ops[..|ops| - 1]), ops[|ops| - 1];
      if key == [] || index == EMPTY || key in c then c else c[key := index]
  }

  /** Call number `i` is the first valid one for `key`. */
  ghost predicate FirstFor(ops: seq<(nat, seq<Elem>)>, key: seq<Elem>, i: nat) {
    && i < |ops| && key != [] && ops[i].1 == key && ops[i].0 != EMPTY
    && forall j | 0 <= j < i :: !(ops[j].1 == key && ops[j].0 != EMPTY)
  }

  lemma {:induction false} FirstWinsIsFirst(ops: seq<(nat, seq<Elem>)>, key: seq<Elem>)
    ensures key in FirstWins(ops) <==> exists i: nat :: FirstFor(ops, key, i)
    ensures forall i: nat | FirstFor(ops, key, i) :: key in FirstWins(ops) && FirstWins(ops)[key] == ops[i].0
  {
    if ops != [] {
      var front, last := ops[..|ops| - 1], |ops| - 1;
      FirstWinsIsFirst(front, key);
      assert forall i | 0 <= i < last :: front[i] == ops[i];
      assert forall i: nat | i < last :: FirstFor(ops, key, i) <==> FirstFor(front, key, i);
      if key in FirstWins(front) {
        var i :| FirstFor(front, key, i);
        assert FirstFor(ops, key, i);
      } else if key in FirstWins(ops) {
        NoFirstNoCall(front, key);
        assert FirstFor(ops, key, last);
      }
    }
  }

  lemma {:induction false} NoFirstNoCall(ops: seq<(nat, seq<Elem>)>, key: seq<Elem>)
    requires key != [] && forall i: nat :: !FirstFor(ops, key, i)
    ensures forall j | 0 <= j < |ops| :: !(ops[j].1 == key && ops[j].0 != EMPTY)
  {
    for k := 0 to |ops|
      invariant forall j | 0 <= j < k :: !(ops[j].1 == key && ops[j].0 != EMPTY)
    {
      assert !FirstFor(ops, key, k);
    }
  }

  /** Any run of insertions, on any number of shards, builds an index that stores the first-wins map. */
  method Replay(shards: nat, ops: seq<(nat, seq<Elem>)>) returns (ix: Index)
    ensures fresh(ix) && ix.Valid() && ix.contents == FirstWins(ops)
  {
    ix := new Index(shards);
    for k := 0 to |ops|
      invariant fresh(ix) && ix.Valid() && ix.contents == FirstWins(ops[..k])
    {
      var r := ix.InsertChain(ops[k].0, ops[k].1);
      assert ops[..k + 1][..k] == ops[..k];
    }
    assert ops[..|ops|] == ops;
  }

  /** In every valid index the children of a node start with different elements. */
  lemma SiblingsDiffer(t: Tree, n: nat, i: nat, j: nat)
    requires WellFormed(t) && n in t.nodes && i < j < |t.nodes[n].children|
    ensures var a, b := t.nodes[n].children[i], t.nodes[n].children[j];
            && a in t.nodes && b in t.nodes && t.nodes[a].prefix != [] && t.nodes[b].prefix != []
            && t.nodes[a].prefix[0] != t.nodes[b].prefix[0]
  {
    var a, b := t.nodes[n].children[i], t.nodes[n].children[j];
    assert ChildrenOk(t, n);
    assert NodeOk(t, a) && NodeOk(t, b);
    StartBound(t, a);
    StartBound(t, b);
    var v, w := t.path[n] + [t.nodes[a].prefix[0]], t.path[n] + [t.nodes[b].prefix[0]];
    assert t.path[a][..|v|] == v && t.path[b][..|w|] == w;
    assert Owns(t, a, v) && Owns(t, b, w);
  }
}
