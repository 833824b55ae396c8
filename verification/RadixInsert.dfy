/** The four ways in which `insert` (crates/opsense-mlib/src/radix.rs) ends, each proved to add exactly one key. */
module RadixInsert {
  import opened RadixTree
  import opened RadixWalk

  /** The invariant of the stored trie: well formed, no bare leaves, and storing the map `c`. */
  ghost predicate Good(tr: Tree, c: map<seq<Elem>, nat>) {
    WellFormed(tr) && Full(tr) && Stores(tr, c)
  }

  /** A stored key is non-empty and its shard has a root. */
  lemma StoredKey(tr: Tree, c: map<seq<Elem>, nat>, key: seq<Elem>)
    requires WellFormed(tr) && Stores(tr, c)
    ensures key in c ==> key != [] && ShardOf(key[0], tr.sharding) in tr.roots
  {
    if key in c {
      var n := HolderOf(tr, c, key);
      assert NodeOk(tr, n);
    }
  }

  // ---------------------------------------------------------------- split

  ghost function SplitTree(tr: Tree, n: nat, bp: nat, suffix: seq<Elem>, value: nat, newId: nat, leg: nat): Tree
    requires Domains(tr) && n in tr.nodes && bp <= |tr.nodes[n].prefix| <= |tr.path[n]|
    requires Domains(Cut(tr, n, bp, EMPTY, leg))
  {
    if suffix == [] then Cut(tr, n, bp, value, leg) else AddChild(Cut(tr, n, bp, EMPTY, leg), n, suffix, value, newId)
  }

  lemma NotAPath(tr: Tree, c: map<seq<Elem>, nat>, n: nat, k: nat)
    requires Good(tr, c) && Inside(tr, n, k) && k < |tr.path[n]|
    ensures tr.path[n][..k] !in c
  {
    if k == 0 {
      StoredKey(tr, c, []);
    } else {
      forall m | m in tr.nodes ensures tr.path[m] != tr.path[n][..k] {
        EndsInside(tr, tr.path[n][..k], n, m);
      }
      NotStored(tr, c, tr.path[n][..k]);
    }
  }

  /** The new key ends inside the prefix of `n`. */
  lemma SplitAtKey(tr: Tree, c: map<seq<Elem>, nat>, n: nat, bp: nat, index: nat, leg: nat)
    requires Good(tr, c) && n in tr.nodes && Start(tr, n) >= 0 && bp < |tr.nodes[n].prefix| <= |tr.path[n]|
    requires Inside(tr, n, Start(tr, n) + bp) && leg !in tr.nodes && leg != EMPTY
    requires Start(tr, n) + bp > 0 && (bp == 0 ==> index == EMPTY)
    ensures tr.path[n][..Start(tr, n) + bp] !in c
    ensures Good(Cut(tr, n, bp, index, leg), Put(c, tr.path[n][..Start(tr, n) + bp], index))
  {
    NotAPath(tr, c, n, Start(tr, n) + bp);
    CutOk(tr, n, bp, index, leg);
    CutStores(tr, c, n, bp, index, leg);
    CutFull(tr, n, bp, index, leg);
  }

  /** The cut alone, without a new key. */
  lemma CutGood(tr: Tree, c: map<seq<Elem>, nat>, n: nat, bp: nat, leg: nat)
    requires Good(tr, c) && n in tr.nodes && Start(tr, n) >= 0 && bp < |tr.nodes[n].prefix| <= |tr.path[n]|
    requires Inside(tr, n, Start(tr, n) + bp) && leg !in tr.nodes && leg != EMPTY
    ensures Good(Cut(tr, n, bp, EMPTY, leg), c)
  {
    NotAPath(tr, c, n, Start(tr, n) + bp);
    CutOk(tr, n, bp, EMPTY, leg);
    CutStores(tr, c, n, bp, EMPTY, leg);
    CutFull(tr, n, bp, EMPTY, leg);
  }

  lemma CutFull(tr: Tree, n: nat, bp: nat, value: nat, leg: nat)
    requires Cuttable(tr, n, bp, value, leg) && Full(tr)
    ensures Full(Cut(tr, n, bp, value, leg))
  {
    var tr' := Cut(tr, n, bp, value, leg);
    assert LeafOk(tr, n);
    forall m | m in tr'.nodes ensures LeafOk(tr', m) {
      assert m != leg ==> LeafOk(tr, m);
    }
  }

  /** Words without owner have none after a cut either. */
  lemma CutNoOwner(tr: Tree, n: nat, bp: nat, value: nat, leg: nat, w: seq<Elem>)
    requires Cuttable(tr, n, bp, value, leg) && Domains(Cut(tr, n, bp, value, leg)) && NoOwner(tr, w)
    ensures NoOwner(Cut(tr, n, bp, value, leg), w)
  {
    forall a ensures !Owns(Cut(tr, n, bp, value, leg), a, w) {
      if Owns(Cut(tr, n, bp, value, leg), a, w) {
        CutOwners(tr, n, bp, value, leg, a, w);
      }
    }
  }

  /** The new key leaves the prefix of `n` after `k` elements. */
  lemma SplitPast(tr: Tree, c: map<seq<Elem>, nat>, key: seq<Elem>, n: nat, bp: nat, index: nat, newId: nat, leg: nat)
    requires Good(tr, c) && n in tr.nodes && Start(tr, n) >= 0 && bp < |tr.nodes[n].prefix| <= |tr.path[n]|
    requires Inside(tr, n, Start(tr, n) + bp) && leg !in tr.nodes && leg != EMPTY && index != EMPTY
    requires newId !in tr.nodes && newId != EMPTY && newId != leg
    requires tr.path[n][..Start(tr, n) + bp] < key && NoOwner(tr, key[..Start(tr, n) + bp + 1])
    requires Start(tr, n) + bp == 0 ==> ShardOf(key[0], tr.sharding) == tr.shard[n]
    ensures key !in c && Domains(Cut(tr, n, bp, EMPTY, leg))
    ensures Good(AddChild(Cut(tr, n, bp, EMPTY, leg), n, key[Start(tr, n) + bp..], index, newId), c[key := index])
  {
    CutGood(tr, c, n, bp, leg);
    CutNoOwner(tr, n, bp, EMPTY, leg, key[..Start(tr, n) + bp + 1]);
    ExtendGood(Cut(tr, n, bp, EMPTY, leg), c, key, n, index, newId);
  }

  lemma SplitGood(tr: Tree, c: map<seq<Elem>, nat>, key: seq<Elem>, n: nat, bp: nat, suffix: seq<Elem>, index: nat,
                  newId: nat, leg: nat)
    requires Good(tr, c) && index != EMPTY && n in tr.nodes && Start(tr, n) >= 0
             && bp < |tr.nodes[n].prefix| <= |tr.path[n]|
    requires Parts(tr, key, n, Start(tr, n) + bp) && suffix == key[Start(tr, n) + bp..]
    requires leg !in tr.nodes && leg != EMPTY && newId !in tr.nodes && newId != EMPTY && newId != leg
    ensures key !in c && Domains(Cut(tr, n, bp, EMPTY, leg))
    ensures Good(SplitTree(tr, n, bp, suffix, index, newId, leg), c[key := index])
  {
    var k := Start(tr, n) + bp;
    if suffix == [] {
      assert tr.path[n][..k] == key;
      StartBound(tr, n);
      SplitAtKey(tr, c, n, bp, index, leg);
    } else {
      assert tr.path[n][..k] < key;
      MissInside(tr, key, n, k);
      SplitPast(tr, c, key, n, bp, index, newId, leg);
    }
  }

  // ---------------------------------------------------------------- extend

  /** Nobody owns the next word of the key after `n`: a leaf below `n` stores it. */
  lemma ExtendGood(tr: Tree, c: map<seq<Elem>, nat>, key: seq<Elem>, n: nat, index: nat, id: nat)
    requires WellFormed(tr) && Stores(tr, c) && n in tr.nodes && tr.path[n] < key && index != EMPTY
    requires forall m {:trigger LeafOk(tr, m)} | m in tr.nodes && m != n :: LeafOk(tr, m)
    requires NoOwner(tr, key[..|tr.path[n]| + 1]) && id !in tr.nodes && id != EMPTY
    requires tr.path[n] == [] ==> ShardOf(key[0], tr.sharding) == tr.shard[n]
    ensures key !in c && Good(AddChild(tr, n, key[|tr.path[n]|..], index, id), c[key := index])
  {
    var k := |tr.path[n]|;
    var suffix := key[k..];
    assert key == tr.path[n] + suffix && key[..k + 1] == tr.path[n] + suffix[..1];
    forall m | m in tr.nodes ensures tr.path[m] != key {
      NoOwnerNoPath(tr, key[..k + 1], m);
    }
    NotStored(tr, c, key);
    AddChildOk(tr, n, suffix, index, id);
    AddChildStores(tr, c, n, suffix, index, id);
    var tr' := AddChild(tr, n, suffix, index, id);
    forall m | m in tr'.nodes ensures LeafOk(tr', m) {
      assert m != id && m != n ==> LeafOk(tr, m);
    }
  }

  // ---------------------------------------------------------------- record

  /** The key ends exactly at `n`. */
  lemma RecordGood(tr: Tree, c: map<seq<Elem>, nat>, n: nat, index: nat)
    requires Good(tr, c) && n in tr.nodes && tr.path[n] != [] && tr.nodes[n].record == EMPTY && index != EMPTY
    ensures tr.path[n] !in c && Good(SetRecord(tr, n, index), c[tr.path[n] := index])
  {
    StoredAt(tr, c, n);
    SetRecordOk(tr, n, index);
    SetRecordStores(tr, c, n, index);
    var tr' := SetRecord(tr, n, index);
    forall m | m in tr'.nodes ensures LeafOk(tr', m) {
      assert LeafOk(tr, m);
    }
  }

  // ---------------------------------------------------------------- new root

  ghost function RootTree(tr: Tree, key: seq<Elem>, index: nat, root: nat, leaf: nat): Tree
    requires tr.sharding > 0 && key != []
    requires Domains(AddRoot(tr, ShardOf(key[0], tr.sharding), key[..1], EMPTY, root))
  {
    var s := ShardOf(key[0], tr.sharding);
    if |key| == 1 then AddRoot(tr, s, key, index, root)
    else AddChild(AddRoot(tr, s, key[..1], EMPTY, root), root, key[1..], index, leaf)
  }

  lemma RootGood(tr: Tree, c: map<seq<Elem>, nat>, key: seq<Elem>, index: nat, root: nat, leaf: nat)
    requires Good(tr, c) && key != [] && ShardOf(key[0], tr.sharding) !in tr.roots && index != EMPTY
    requires root !in tr.nodes && root != EMPTY && leaf !in tr.nodes && leaf != EMPTY && leaf != root
    ensures key !in c && Domains(AddRoot(tr, ShardOf(key[0], tr.sharding), key[..1], EMPTY, root))
    ensures Good(RootTree(tr, key, index, root, leaf), c[key := index])
  {
    var s := ShardOf(key[0], tr.sharding);
    StoredKey(tr, c, key);
    StoredKey(tr, c, key[..1]);
    if |key| == 1 {
      AddRootOk(tr, s, key, index, root);
      AddRootStores(tr, c, s, key, index, root);
      RootFull(tr, s, key, index, root);
    } else {
      AddRootOk(tr, s, key[..1], EMPTY, root);
      AddRootStores(tr, c, s, key[..1], EMPTY, root);
      RootFull(tr, s, key[..1], EMPTY, root);
      var tr1 := AddRoot(tr, s, key[..1], EMPTY, root);
      StartBound(tr1, root);
      MissChild(tr1, key, root);
      ExtendGood(tr1, c, key, root, index, leaf);
    }
  }

  lemma RootFull(tr: Tree, s: nat, prefix: seq<Elem>, value: nat, root: nat)
    requires Full(tr)
    ensures forall m {:trigger LeafOk(AddRoot(tr, s, prefix, value, root), m)} |
              m in AddRoot(tr, s, prefix, value, root).nodes && m != root ::
                  LeafOk(AddRoot(tr, s, prefix, value, root), m)
    ensures value != EMPTY ==> Full(AddRoot(tr, s, prefix, value, root))
  {
    var tr' := AddRoot(tr, s, prefix, value, root);
    forall m | m in tr'.nodes && m != root ensures LeafOk(tr', m) {
      assert LeafOk(tr, m);
    }
  }
}
