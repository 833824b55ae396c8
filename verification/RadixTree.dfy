/**
 The compressed trie stored by crates/opsense-mlib/src/radix.rs, as a value: nodes addressed by
 id, one optional root per shard. The maps `path`, `parent` and `shard` are what the proofs add:
 the word spelled from the root through each node, its parent (EMPTY for a root) and its shard.

 Everything rests on one invariant: a word is owned by the node in whose prefix it ends, and no
 word is owned twice.
 */
module RadixTree {
  import opened Division

  type Elem = int

  const EMPTY: nat := 0

  /** `*self as usize`. */
  function ToUsize(e: Elem): nat {
    e % 0x1_0000_0000_0000_0000
  }

  function ShardOf(e: Elem, sharding: nat): nat
    requires sharding > 0
  {
    ToUsize(e) % sharding
  }

  /** The 64-bit word that differs from the element by a multiple of 2^64. */
  lemma UsizeExactly(e: Elem, u: nat)
    ensures ToUsize(e) == u <==> u < 0x1_0000_0000_0000_0000 && exists w: int :: e == w * 0x1_0000_0000_0000_0000 + u
  {
    assert e == (e / 0x1_0000_0000_0000_0000) * 0x1_0000_0000_0000_0000 + ToUsize(e);
  }

  /** The shard is the remainder of that word. */
  lemma ShardExactly(e: Elem, sharding: nat, s: nat)
    requires sharding > 0
    ensures ShardOf(e, sharding) == s <==> s < sharding && exists q: nat :: ToUsize(e) == q * sharding + s
  {
    RemainderExactly(ToUsize(e), sharding, s);
  }

  datatype Node = Node(prefix: seq<Elem>, record: nat, children: seq<nat>)

  datatype Tree = Tree(nodes: map<nat, Node>, roots: map<nat, nat>, sharding: nat,
                       path: map<nat, seq<Elem>>, parent: map<nat, nat>, shard: map<nat, nat>)

  ghost predicate Domains(tr: Tree) {
    tr.sharding > 0 && tr.path.Keys == tr.parent.Keys == tr.shard.Keys == tr.nodes.Keys && EMPTY !in tr.nodes
  }

  /** The length of the path before the node's own prefix. */
  ghost function Start(tr: Tree, n: nat): int
    requires n in tr.nodes && n in tr.path
  {
    |tr.path[n]| - |tr.nodes[n].prefix|
  }

  ghost predicate NodeOk(tr: Tree, n: nat)
    requires Domains(tr) && n in tr.nodes
  {
    var node := tr.nodes[n];
    && tr.shard[n] in tr.roots
    && (tr.path[n] != [] ==> ShardOf(tr.path[n][0], tr.sharding) == tr.shard[n])
    && (node.record != EMPTY ==> tr.path[n] != [])
    && (if tr.parent[n] == EMPTY then tr.roots[tr.shard[n]] == n && tr.path[n] == node.prefix
        else
          && node.prefix != []
          && tr.parent[n] in tr.nodes
          && n in tr.nodes[tr.parent[n]].children
          && tr.path[n] == tr.path[tr.parent[n]] + node.prefix
          && tr.shard[n] == tr.shard[tr.parent[n]])
  }

  ghost predicate ChildrenOk(tr: Tree, n: nat)
    requires Domains(tr) && n in tr.nodes
  {
    var cs := tr.nodes[n].children;
    && (forall i | 0 <= i < |cs| :: cs[i] in tr.nodes && tr.parent[cs[i]] == n)
    && (forall i, j | 0 <= i < j < |cs| :: cs[i] != cs[j])
  }

  ghost predicate RootOk(tr: Tree, s: nat)
    requires Domains(tr) && s in tr.roots
  {
    tr.roots[s] in tr.nodes && tr.parent[tr.roots[s]] == EMPTY && tr.shard[tr.roots[s]] == s
  }

  /** `w` ends inside the prefix of `n`. */
  ghost predicate Owns(tr: Tree, n: nat, w: seq<Elem>)
    requires Domains(tr)
  {
    n in tr.nodes && Start(tr, n) < |w| <= |tr.path[n]| && tr.path[n][..|w|] == w
  }

  ghost predicate WellFormed(tr: Tree) {
    && Domains(tr)
    && (forall n {:trigger NodeOk(tr, n)} | n in tr.nodes :: NodeOk(tr, n))
    && (forall n {:trigger ChildrenOk(tr, n)} | n in tr.nodes :: ChildrenOk(tr, n))
    && (forall s {:trigger RootOk(tr, s)} | s in tr.roots :: RootOk(tr, s))
    && (forall a, b, w :: Owns(tr, a, w) && Owns(tr, b, w) ==> a == b)
  }

  /** Every leaf carries a record. */
  ghost predicate Full(tr: Tree) {
    forall n {:trigger LeafOk(tr, n)} | n in tr.nodes :: LeafOk(tr, n)
  }

  ghost predicate LeafOk(tr: Tree, n: nat)
    requires n in tr.nodes
  {
    tr.nodes[n].children == [] ==> tr.nodes[n].record != EMPTY
  }

  ghost predicate NoOwner(tr: Tree, w: seq<Elem>)
    requires Domains(tr)
  {
    forall a :: !Owns(tr, a, w)
  }

  // ---------------------------------------------------------------- where a word continues

  /** After `k` elements of its path the walk is inside node `n` (or at its root, nothing read). */
  ghost predicate Inside(tr: Tree, n: nat, k: nat)
    requires Domains(tr)
  {
    n in tr.nodes && Start(tr, n) <= k <= |tr.path[n]| && (k == Start(tr, n) ==> tr.parent[n] == EMPTY)
  }

  lemma StartBound(tr: Tree, n: nat)
    requires WellFormed(tr) && n in tr.nodes
    ensures 0 <= Start(tr, n) && (tr.parent[n] == EMPTY ==> Start(tr, n) == 0)
    ensures tr.parent[n] != EMPTY ==> tr.parent[n] in tr.nodes && Start(tr, n) == |tr.path[tr.parent[n]]| < |tr.path[n]|
    ensures tr.parent[n] != EMPTY ==> tr.path[n][..Start(tr, n)] == tr.path[tr.parent[n]]
  {
    assert NodeOk(tr, n);
  }

  /** The walk has at most one way on: only `n` itself or one of its children owns the next word. */
  lemma NextOwner(tr: Tree, n: nat, k: nat, x: Elem, a: nat)
    requires WellFormed(tr) && Inside(tr, n, k)
    requires k == 0 ==> ShardOf(x, tr.sharding) == tr.shard[n]
    requires Owns(tr, a, tr.path[n][..k] + [x])
    ensures if k < |tr.path[n]| then a == n else tr.parent[a] == n
  {
    var w := tr.path[n][..k];
    StartBound(tr, n);
    StartBound(tr, a);
    assert NodeOk(tr, n) && NodeOk(tr, a);
    assert (w + [x])[..k] == w && tr.path[a][..k + 1][..k] == tr.path[a][..k];
    if Start(tr, a) < k {
      assert Owns(tr, a, w) && Owns(tr, n, w);
    } else if tr.parent[a] != EMPTY {
      var p := tr.parent[a];
      StartBound(tr, p);
      assert NodeOk(tr, p);
      assert k > 0 ==> Owns(tr, p, w) && Owns(tr, n, w);
      assert k == 0 ==> tr.path[a][0] == x;
    } else {
      assert tr.path[a][0] == x;
    }
  }

  /** Every non-empty prefix of a stored path is owned by some node. */
  lemma {:induction false} PrefixOwned(tr: Tree, m: nat, w: seq<Elem>) returns (a: nat)
    requires WellFormed(tr) && m in tr.nodes && w != [] && w <= tr.path[m]
    ensures Owns(tr, a, w) && tr.path[a] <= tr.path[m]
    decreases |tr.path[m]|
  {
    StartBound(tr, m);
    if Start(tr, m) < |w| {
      a := m;
    } else {
      assert NodeOk(tr, m);
      a := PrefixOwned(tr, tr.parent[m], w);
    }
  }

  /** A word without owner is not the beginning of any stored path. */
  lemma NoOwnerNoPath(tr: Tree, w: seq<Elem>, m: nat)
    requires WellFormed(tr) && w != [] && NoOwner(tr, w) && m in tr.nodes
    ensures !(w <= tr.path[m])
  {
    if w <= tr.path[m] {
      var a := PrefixOwned(tr, m, w);
      assert false;
    }
  }

  // ---------------------------------------------------------------- the structural steps

  /** `extend`: a new leaf below `n`. */
  ghost function AddChild(tr: Tree, n: nat, suffix: seq<Elem>, value: nat, id: nat): Tree
    requires Domains(tr) && n in tr.nodes
  {
    var node := tr.nodes[n];
    tr.(nodes := tr.nodes[n := node.(children := node.children + [id])][id := Node(suffix, value, [])],
        path := tr.path[id := tr.path[n] + suffix],
        parent := tr.parent[id := n],
        shard := tr.shard[id := tr.shard[n]])
  }

  /**
   The first half of `split`: `n` keeps `bp` elements, the new node `leg` takes the rest, the record and the
   children.
   */
  ghost function Cut(tr: Tree, n: nat, bp: nat, value: nat, leg: nat): Tree
    requires Domains(tr) && n in tr.nodes && bp <= |tr.nodes[n].prefix| <= |tr.path[n]|
  {
    var node := tr.nodes[n];
    tr.(nodes := tr.nodes[n := Node(node.prefix[..bp], value, [leg])][leg :=
      Node(node.prefix[bp..], node.record, node.children)],
        path := tr.path[n := tr.path[n][..Start(tr, n) + bp]][leg := tr.path[n]],
        parent := (map m | m in tr.parent :: if tr.parent[m] == n then leg else tr.parent[m])[leg := n],
        shard := tr.shard[leg := tr.shard[n]])
  }

  /** A new root for a shard that had none. */
  ghost function AddRoot(tr: Tree, s: nat, prefix: seq<Elem>, value: nat, id: nat): Tree {
    tr.(nodes := tr.nodes[id := Node(prefix, value, [])],
        roots := tr.roots[s := id],
        path := tr.path[id := prefix],
        parent := tr.parent[id := EMPTY],
        shard := tr.shard[id := s])
  }

  ghost function SetRecord(tr: Tree, n: nat, value: nat): Tree
    requires n in tr.nodes
  {
    tr.(nodes := tr.nodes[n := tr.nodes[n].(record := value)])
  }

  lemma AddChildOk(tr: Tree, n: nat, suffix: seq<Elem>, value: nat, id: nat)
    requires WellFormed(tr) && n in tr.nodes && id !in tr.nodes && id != EMPTY && suffix != []
    requires NoOwner(tr, tr.path[n] + suffix[..1])
    requires tr.path[n] == [] ==> ShardOf(suffix[0], tr.sharding) == tr.shard[n]
    ensures WellFormed(AddChild(tr, n, suffix, value, id))
  {
    var tr' := AddChild(tr, n, suffix, value, id);
    forall m | m in tr'.nodes ensures NodeOk(tr', m) && ChildrenOk(tr', m) {
      AddChildNode(tr, n, suffix, value, id, m);
    }
    forall s | s in tr'.roots ensures RootOk(tr', s) {
      assert RootOk(tr, s);
    }
    forall a, w ensures Owns(tr', a, w) && a != id ==> Owns(tr, a, w) && !Owns(tr', id, w) {
      if Owns(tr', a, w) && a != id {
        assert Owns(tr, a, w);
        NotOwnedBelow(tr, n, suffix, a, w);
      }
    }
  }

  lemma AddChildNode(tr: Tree, n: nat, suffix: seq<Elem>, value: nat, id: nat, m: nat)
    requires WellFormed(tr) && n in tr.nodes && id !in tr.nodes && id != EMPTY && suffix != []
    requires tr.path[n] == [] ==> ShardOf(suffix[0], tr.sharding) == tr.shard[n]
    requires m in AddChild(tr, n, suffix, value, id).nodes
    ensures Domains(AddChild(tr, n, suffix, value, id))
    ensures NodeOk(AddChild(tr, n, suffix, value, id), m) && ChildrenOk(AddChild(tr, n, suffix, value, id), m)
  {
    assert NodeOk(tr, n);
    assert m != id ==> NodeOk(tr, m) && ChildrenOk(tr, m);
  }

  /** If nobody owns the first new word, nobody owns any word of the new leaf. */
  lemma NotOwnedBelow(tr: Tree, n: nat, suffix: seq<Elem>, a: nat, w: seq<Elem>)
    requires WellFormed(tr) && n in tr.nodes && suffix != [] && NoOwner(tr, tr.path[n] + suffix[..1]) && Owns(tr, a, w)
    ensures !(|tr.path[n]| < |w| && w <= tr.path[n] + suffix)
  {
    var first := tr.path[n] + suffix[..1];
    if |tr.path[n]| < |w| && w <= tr.path[n] + suffix {
      assert (tr.path[n] + suffix)[..|first|] == first;
      assert w[..|first|] == first && tr.path[a][..|first|] == first;
      NoOwnerNoPath(tr, first, a);
    }
  }

  /** Words keep their owner when a node is cut, except that the leg takes over those past the cut. */
  ghost function OwnerBefore(n: nat, leg: nat, a: nat): nat {
    if a == leg then n else a
  }

  lemma CutOwners(tr: Tree, n: nat, bp: nat, value: nat, leg: nat, a: nat, w: seq<Elem>)
    requires WellFormed(tr) && n in tr.nodes && bp < |tr.nodes[n].prefix| <= |tr.path[n]| && leg !in tr.nodes
             && leg != EMPTY
    requires Domains(Cut(tr, n, bp, value, leg)) && Owns(Cut(tr, n, bp, value, leg), a, w)
    ensures Owns(tr, OwnerBefore(n, leg, a), w)
    ensures a == n ==> |w| <= Start(tr, n) + bp
    ensures a == leg ==> |w| > Start(tr, n) + bp
  {
    if a == n {
      assert tr.path[n][..Start(tr, n) + bp][..|w|] == tr.path[n][..|w|];
    }
  }

  lemma CutOk(tr: Tree, n: nat, bp: nat, value: nat, leg: nat)
    requires Cuttable(tr, n, bp, value, leg)
    ensures WellFormed(Cut(tr, n, bp, value, leg))
  {
    var tr' := Cut(tr, n, bp, value, leg);
    StartBound(tr, n);
    forall m | m in tr'.nodes ensures NodeOk(tr', m) && ChildrenOk(tr', m) {
      CutNode(tr, n, bp, value, leg, m);
    }
    forall s | s in tr'.roots ensures RootOk(tr', s) {
      assert RootOk(tr, s);
    }
    forall a, b, w ensures Owns(tr', a, w) && Owns(tr', b, w) ==> a == b {
      if Owns(tr', a, w) && Owns(tr', b, w) {
        CutOwners(tr, n, bp, value, leg, a, w);
        CutOwners(tr, n, bp, value, leg, b, w);
      }
    }
  }

  ghost predicate Cuttable(tr: Tree, n: nat, bp: nat, value: nat, leg: nat) {
    && WellFormed(tr) && n in tr.nodes && leg !in tr.nodes && leg != EMPTY
    && bp < |tr.nodes[n].prefix| <= |tr.path[n]|
    && (bp == 0 ==> tr.parent[n] == EMPTY && value == EMPTY)
  }

  lemma CutNode(tr: Tree, n: nat, bp: nat, value: nat, leg: nat, m: nat)
    requires Cuttable(tr, n, bp, value, leg) && m in Cut(tr, n, bp, value, leg).nodes
    ensures Domains(Cut(tr, n, bp, value, leg))
    ensures NodeOk(Cut(tr, n, bp, value, leg), m) && ChildrenOk(Cut(tr, n, bp, value, leg), m)
  {
    if m == n {
      CutHead(tr, n, bp, value, leg);
    } else if m == leg {
      CutLeg(tr, n, bp, value, leg);
    } else {
      CutOther(tr, n, bp, value, leg, m);
    }
  }

  lemma CutHead(tr: Tree, n: nat, bp: nat, value: nat, leg: nat)
    requires Cuttable(tr, n, bp, value, leg)
    ensures Domains(Cut(tr, n, bp, value, leg))
    ensures NodeOk(Cut(tr, n, bp, value, leg), n) && ChildrenOk(Cut(tr, n, bp, value, leg), n)
  {
    StartBound(tr, n);
    assert NodeOk(tr, n);
    assert tr.parent[n] != EMPTY ==>
        tr.path[n][..Start(tr, n) + bp] == tr.path[tr.parent[n]] + tr.nodes[n].prefix[..bp];
  }

  lemma CutLeg(tr: Tree, n: nat, bp: nat, value: nat, leg: nat)
    requires Cuttable(tr, n, bp, value, leg)
    ensures Domains(Cut(tr, n, bp, value, leg))
    ensures NodeOk(Cut(tr, n, bp, value, leg), leg) && ChildrenOk(Cut(tr, n, bp, value, leg), leg)
  {
    StartBound(tr, n);
    assert NodeOk(tr, n) && ChildrenOk(tr, n);
    assert tr.path[n] == tr.path[n][..Start(tr, n) + bp] + tr.nodes[n].prefix[bp..];
    assert leg in [leg];
  }

  lemma CutOther(tr: Tree, n: nat, bp: nat, value: nat, leg: nat, m: nat)
    requires Cuttable(tr, n, bp, value, leg) && m in tr.nodes && m != n
    ensures Domains(Cut(tr, n, bp, value, leg))
    ensures NodeOk(Cut(tr, n, bp, value, leg), m) && ChildrenOk(Cut(tr, n, bp, value, leg), m)
  {
    assert NodeOk(tr, m) && ChildrenOk(tr, m);
  }

  lemma AddRootOk(tr: Tree, s: nat, prefix: seq<Elem>, value: nat, id: nat)
    requires WellFormed(tr) && s !in tr.roots && id !in tr.nodes && id != EMPTY
    requires prefix != [] && ShardOf(prefix[0], tr.sharding) == s
    ensures WellFormed(AddRoot(tr, s, prefix, value, id))
  {
    var tr' := AddRoot(tr, s, prefix, value, id);
    forall m | m in tr'.nodes ensures NodeOk(tr', m) && ChildrenOk(tr', m) {
      AddRootNode(tr, s, prefix, value, id, m);
    }
    forall r | r in tr'.roots ensures RootOk(tr', r) {
      assert r != s ==> RootOk(tr, r);
    }
    forall a, w ensures Owns(tr', a, w) && a != id ==> Owns(tr, a, w) && !Owns(tr', id, w) {
      AddRootOwners(tr, s, prefix, value, id, a, w);
    }
  }

  lemma AddRootOwners(tr: Tree, s: nat, prefix: seq<Elem>, value: nat, id: nat, a: nat, w: seq<Elem>)
    requires WellFormed(tr) && s !in tr.roots && id !in tr.nodes && id != EMPTY
    requires prefix != [] && ShardOf(prefix[0], tr.sharding) == s && Domains(AddRoot(tr, s, prefix, value, id))
    ensures Owns(AddRoot(tr, s, prefix, value, id), a, w) && a != id ==>
              Owns(tr, a, w) && !Owns(AddRoot(tr, s, prefix, value, id), id, w)
  {
    if Owns(AddRoot(tr, s, prefix, value, id), a, w) && a != id {
      assert NodeOk(tr, a);
      StartBound(tr, a);
      assert w[0] == tr.path[a][0];
    }
  }

  lemma AddRootNode(tr: Tree, s: nat, prefix: seq<Elem>, value: nat, id: nat, m: nat)
    requires WellFormed(tr) && s !in tr.roots && id !in tr.nodes && id != EMPTY
    requires prefix != [] && ShardOf(prefix[0], tr.sharding) == s && m in AddRoot(tr, s, prefix, value, id).nodes
    ensures Domains(AddRoot(tr, s, prefix, value, id))
    ensures NodeOk(AddRoot(tr, s, prefix, value, id), m) && ChildrenOk(AddRoot(tr, s, prefix, value, id), m)
  {
    assert m != id ==> NodeOk(tr, m) && ChildrenOk(tr, m);
  }

  lemma SetRecordOk(tr: Tree, n: nat, value: nat)
    requires WellFormed(tr) && n in tr.nodes && tr.path[n] != []
    ensures WellFormed(SetRecord(tr, n, value))
  {
    var tr' := SetRecord(tr, n, value);
    forall m | m in tr'.nodes ensures NodeOk(tr', m) && ChildrenOk(tr', m) {
      SetRecordNode(tr, n, value, m);
    }
    forall s | s in tr'.roots ensures RootOk(tr', s) {
      assert RootOk(tr, s);
    }
    assert forall a, w :: Owns(tr', a, w) ==> Owns(tr, a, w);
  }

  lemma SetRecordNode(tr: Tree, n: nat, value: nat, m: nat)
    requires WellFormed(tr) && n in tr.nodes && tr.path[n] != [] && m in tr.nodes
    ensures Domains(SetRecord(tr, n, value))
    ensures NodeOk(SetRecord(tr, n, value), m) && ChildrenOk(SetRecord(tr, n, value), m)
  {
    assert NodeOk(tr, m) && ChildrenOk(tr, m);
  }
}
