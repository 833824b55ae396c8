/**
 Walks that begin at a given node of the trie of crates/opsense-mlib/src/radix.rs. What lies below a node is a
 trie of its own, with that node as its only root and the path before it taken off every key.
 */
module RadixReroot {
  import opened RadixInsert
  import opened RadixSubtree
  import opened RadixTree
  import opened RadixWalk

  /** The path before the prefix of `n`. */
  ghost function Before(tr: Tree, n: nat): (q: seq<Elem>)
    requires WellFormed(tr) && n in tr.nodes
    ensures q + tr.nodes[n].prefix == tr.path[n]
  {
    StartBound(tr, n);
    PathEnds(tr, n);
    tr.path[n][..Start(tr, n)]
  }

  ghost function Reroot(tr: Tree, n: nat): Tree
    requires WellFormed(tr) && n in tr.nodes
  {
    var below, k := set m | m in tr.nodes && Below(tr, n, m), |Before(tr, n)|;
    Tree(map m | m in below :: tr.nodes[m], map[0 := n], 1, map m | m in below :: tr.path[m][k..],
         map m | m in below :: if m == n then EMPTY else tr.parent[m], map m | m in below :: 0)
  }

  /** A stored key that goes through `n`. */
  ghost predicate Through(tr: Tree, n: nat, key: seq<Elem>)
    requires Domains(tr) && n in tr.nodes
  {
    key != [] && ShardOf(key[0], tr.sharding) == tr.shard[n] && tr.path[n] <= key
  }

  /** The keys that go through `n`, without the path before it; all keys for EMPTY. */
  ghost function KeysFrom(tr: Tree, c: map<seq<Elem>, nat>, n: nat): map<seq<Elem>, nat>
    requires WellFormed(tr) && (n != EMPTY ==> n in tr.nodes)
  {
    if n == EMPTY then c
    else
      var q := Before(tr, n);
      var rests := set key | key in c && |q| <= |key| :: key[|q|..];
      map rest | rest in rests && q + rest in c && Through(tr, n, q + rest) :: c[q + rest]
  }

  lemma KeysBelow(tr: Tree, c: map<seq<Elem>, nat>, n: nat, rest: seq<Elem>)
    requires WellFormed(tr) && n in tr.nodes
    ensures var key := Before(tr, n) + rest;
            && (rest in KeysFrom(tr, c, n) <==> key in c && Through(tr, n, key))
            && (rest in KeysFrom(tr, c, n) ==> KeysFrom(tr, c, n)[rest] == c[key])
  {
    var q := Before(tr, n);
    assert (q + rest)[|q|..] == rest;
  }

  /** The same node in both tries. */
  lemma RerootNode(tr: Tree, n: nat, m: nat)
    requires WellFormed(tr) && n in tr.nodes && Below(tr, n, m)
    ensures m in Reroot(tr, n).nodes && Reroot(tr, n).nodes[m] == tr.nodes[m]
    ensures Before(tr, n) + Reroot(tr, n).path[m] == tr.path[m]
    ensures Start(Reroot(tr, n), m) == Start(tr, m) - |Before(tr, n)|
  {
    var k := |Before(tr, n)|;
    assert tr.path[m][..|tr.path[n]|][..k] == tr.path[m][..k];
    assert tr.path[m][..k] + tr.path[m][k..] == tr.path[m];
  }

  lemma RerootNodeOk(tr: Tree, n: nat, m: nat)
    requires WellFormed(tr) && n in tr.nodes && Below(tr, n, m) && Domains(Reroot(tr, n))
    ensures NodeOk(Reroot(tr, n), m) && ChildrenOk(Reroot(tr, n), m)
  {
    RerootNode(tr, n, m);
    StartBound(tr, m);
    assert NodeOk(tr, m) && ChildrenOk(tr, m);
    var cs := tr.nodes[m].children;
    forall i | 0 <= i < |cs| ensures Below(tr, n, cs[i]) && cs[i] != n {
      BelowChildDirect(tr, m, cs[i]);
      BelowTrans(tr, n, m, cs[i]);
    }
    if m != n {
      BelowParent(tr, n, m);
      RerootNode(tr, n, tr.parent[m]);
    }
  }

  lemma RerootOwns(tr: Tree, n: nat, a: nat, w: seq<Elem>)
    requires WellFormed(tr) && n in tr.nodes && Domains(Reroot(tr, n)) && Owns(Reroot(tr, n), a, w)
    ensures Owns(tr, a, Before(tr, n) + w)
  {
    RerootNode(tr, n, a);
    var q, path := Before(tr, n), Reroot(tr, n).path[a];
    assert (q + path)[..|q| + |w|] == q + path[..|w|];
  }

  lemma RerootUnique(tr: Tree, n: nat, a: nat, b: nat, w: seq<Elem>)
    requires WellFormed(tr) && n in tr.nodes && Domains(Reroot(tr, n))
    requires Owns(Reroot(tr, n), a, w) && Owns(Reroot(tr, n), b, w)
    ensures a == b
  {
    RerootOwns(tr, n, a, w);
    RerootOwns(tr, n, b, w);
  }

  lemma RerootFull(tr: Tree, n: nat)
    requires WellFormed(tr) && Full(tr) && n in tr.nodes
    ensures Full(Reroot(tr, n))
  {
    var t := Reroot(tr, n);
    forall m | m in t.nodes ensures LeafOk(t, m) {
      RerootNode(tr, n, m);
      assert LeafOk(tr, m);
    }
  }

  lemma RerootWellFormed(tr: Tree, n: nat)
    requires WellFormed(tr) && n in tr.nodes
    ensures WellFormed(Reroot(tr, n))
  {
    var t := Reroot(tr, n);
    forall m | m in t.nodes ensures NodeOk(t, m) && ChildrenOk(t, m) {
      RerootNodeOk(tr, n, m);
    }
    forall a, b, w | Owns(t, a, w) && Owns(t, b, w) ensures a == b {
      RerootUnique(tr, n, a, b, w);
    }
  }

  /** The trie below `n` is a trie, and stores the keys that go through `n`. */
  lemma RerootGood(tr: Tree, c: map<seq<Elem>, nat>, n: nat)
    requires Good(tr, c) && n in tr.nodes
    ensures Good(Reroot(tr, n), KeysFrom(tr, c, n))
  {
    RerootWellFormed(tr, n);
    RerootFull(tr, n);
    RerootStores(tr, c, n);
  }

  lemma RerootStores(tr: Tree, c: map<seq<Elem>, nat>, n: nat)
    requires Good(tr, c) && n in tr.nodes && Domains(Reroot(tr, n))
    ensures Stores(Reroot(tr, n), KeysFrom(tr, c, n))
  {
    var t, c' := Reroot(tr, n), KeysFrom(tr, c, n);
    forall m | m in t.nodes ensures Kept(t, c', m) {
      RerootNode(tr, n, m);
      assert Kept(tr, c, m) && NodeOk(tr, m);
      KeysBelow(tr, c, n, t.path[m]);
    }
    forall rest | rest in c' ensures Held(t, rest, c'[rest]) {
      KeysBelow(tr, c, n, rest);
      var m := HolderOf(tr, c, Before(tr, n) + rest);
      assert NodeOk(tr, m);
      RerootNode(tr, n, m);
      assert Holds(t, m, rest, c'[rest]);
    }
  }
}
