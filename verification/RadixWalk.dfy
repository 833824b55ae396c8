/**
 Walking the trie along a key, and what the steps of `insert` do to the stored keys
 (crates/opsense-mlib/src/radix.rs). A trie stores the map from the path of each node that
 carries a record to that record.
 */
module RadixWalk {
  import opened RadixTree

  // ---------------------------------------------------------------- the stored map

  ghost predicate Holds(tr: Tree, n: nat, key: seq<Elem>, v: nat)
    requires Domains(tr)
  {
    n in tr.nodes && tr.path[n] == key && tr.nodes[n].record == v != EMPTY
  }

  ghost predicate Held(tr: Tree, key: seq<Elem>, v: nat)
    requires Domains(tr)
  {
    exists n :: Holds(tr, n, key, v)
  }

  ghost predicate Kept(tr: Tree, c: map<seq<Elem>, nat>, n: nat)
    requires Domains(tr) && n in tr.nodes
  {
    tr.nodes[n].record != EMPTY ==> tr.path[n] in c && c[tr.path[n]] == tr.nodes[n].record
  }

  /** The trie stores exactly the map `c`. */
  ghost predicate Stores(tr: Tree, c: map<seq<Elem>, nat>)
    requires Domains(tr)
  {
    && (forall n {:trigger Kept(tr, c, n)} | n in tr.nodes :: Kept(tr, c, n))
    && (forall key {:trigger Held(tr, key, c[key])} | key in c :: Held(tr, key, c[key]))
  }

  lemma HolderOf(tr: Tree, c: map<seq<Elem>, nat>, key: seq<Elem>) returns (n: nat)
    requires Domains(tr) && Stores(tr, c) && key in c
    ensures Holds(tr, n, key, c[key])
  {
    assert Held(tr, key, c[key]);
    n :| Holds(tr, n, key, c[key]);
  }

  /** The node at which a key ends decides whether it is stored. */
  lemma StoredAt(tr: Tree, c: map<seq<Elem>, nat>, n: nat)
    requires WellFormed(tr) && Stores(tr, c) && n in tr.nodes && tr.path[n] != []
    ensures tr.path[n] in c <==> tr.nodes[n].record != EMPTY
    ensures tr.path[n] in c ==> c[tr.path[n]] == tr.nodes[n].record
  {
    var key := tr.path[n];
    assert Kept(tr, c, n);
    if key in c {
      var m := HolderOf(tr, c, key);
      OwnsItself(tr, n);
      OwnsItself(tr, m);
    }
  }

  lemma OwnsItself(tr: Tree, n: nat)
    requires WellFormed(tr) && n in tr.nodes && tr.path[n] != []
    ensures Owns(tr, n, tr.path[n])
  {
    StartBound(tr, n);
    assert NodeOk(tr, n);
  }

  lemma NotStored(tr: Tree, c: map<seq<Elem>, nat>, key: seq<Elem>)
    requires WellFormed(tr) && Stores(tr, c)
    requires forall m | m in tr.nodes :: tr.path[m] != key
    ensures key !in c
  {
    if key in c {
      var n := HolderOf(tr, c, key);
    }
  }

  // ---------------------------------------------------------------- walking along a key

  /** The number of leading elements on which `a` and `b` agree. */
  function CommonLen(a: seq<Elem>, b: seq<Elem>): (k: nat)
    ensures k <= |a| && k <= |b| && a[..k] == b[..k]
    ensures k < |a| && k < |b| ==> a[k] != b[k]
  {
    if a == [] || b == [] || a[0] != b[0] then 0
    else
      var k := CommonLen(a[1..], b[1..]);
      assert a[..k + 1] == [a[0]] + a[1..][..k] && b[..k + 1] == [b[0]] + b[1..][..k];
      k + 1
  }

  /** The walk along `key` has come to node `n`, with `tail` elements consumed before it. */
  ghost predicate Reached(tr: Tree, key: seq<Elem>, n: nat, tail: nat)
    requires Domains(tr)
  {
    && key != []
    && n in tr.nodes
    && tail == Start(tr, n) <= |key|
    && |tr.nodes[n].prefix| <= |tr.path[n]|
    && tr.path[n][..tail] == key[..tail]
    && (if tr.parent[n] == EMPTY then tr.shard[n] == ShardOf(key[0], tr.sharding)
        else tail < |key| && tr.nodes[n].prefix != [] && tr.nodes[n].prefix[0] == key[tail])
  }

  lemma ReachedRoot(tr: Tree, key: seq<Elem>)
    requires WellFormed(tr) && key != [] && ShardOf(key[0], tr.sharding) in tr.roots
    ensures Reached(tr, key, tr.roots[ShardOf(key[0], tr.sharding)], 0)
  {
    var s := ShardOf(key[0], tr.sharding);
    assert RootOk(tr, s) && NodeOk(tr, tr.roots[s]);
  }

  /** Comparing `prefix`, the end of `path`, with the rest of the key compares the path with the key. */
  lemma CompareEnds(path: seq<Elem>, prefix: seq<Elem>, key: seq<Elem>, tail: nat, common: nat)
    requires |prefix| + tail == |path| && tail <= |key| && path[tail..] == prefix && path[..tail] == key[..tail]
    requires common <= |prefix| && tail + common <= |key| && prefix[..common] == key[tail..][..common]
    requires common < |prefix| && tail + common < |key| ==> prefix[common] != key[tail..][common]
    ensures path[..tail + common] == key[..tail + common]
    ensures tail + common < |key| && common < |prefix| ==> path[tail + common] != key[tail + common]
  {
    var k := tail + common;
    assert path[..k] == path[..tail] + path[tail..][..common];
    assert key[..k] == key[..tail] + key[tail..][..common];
  }

  /** The key and the path of `n` agree on exactly `k` elements, and the walk is inside `n` there. */
  ghost predicate Parts(tr: Tree, key: seq<Elem>, n: nat, k: nat)
    requires Domains(tr)
  {
    && key != [] && k <= |key| && Inside(tr, n, k) && tr.path[n][..k] == key[..k]
    && (k < |key| && k < |tr.path[n]| ==> tr.path[n][k] != key[k])
    && (k == 0 ==> tr.parent[n] == EMPTY && tr.shard[n] == ShardOf(key[0], tr.sharding))
  }

  /** What the comparison of the node prefix with the rest of the key establishes. */
  lemma Compared(tr: Tree, key: seq<Elem>, n: nat, tail: nat, common: nat)
    requires WellFormed(tr) && Reached(tr, key, n, tail) && common == CommonLen(tr.nodes[n].prefix, key[tail..])
    ensures Parts(tr, key, n, tail + common) && (tr.parent[n] != EMPTY ==> common > 0)
  {
    assert tr.path[n][tail..] == tr.nodes[n].prefix by { PathEnds(tr, n); }
    CompareEnds(tr.path[n], tr.nodes[n].prefix, key, tail, common);
    assert tail < |key| ==> key[tail..][0] == key[tail];
    StartBound(tr, n);
  }

  lemma PathEnds(tr: Tree, n: nat)
    requires WellFormed(tr) && n in tr.nodes
    ensures 0 <= Start(tr, n) <= |tr.path[n]| && tr.path[n][Start(tr, n)..] == tr.nodes[n].prefix
  {
    assert NodeOk(tr, n);
  }

  /** A mismatch inside a prefix: no stored path begins with the key up to and including the mismatch. */
  lemma MissInside(tr: Tree, key: seq<Elem>, n: nat, k: nat)
    requires WellFormed(tr) && Parts(tr, key, n, k) && k < |key| && k < |tr.path[n]|
    ensures NoOwner(tr, key[..k + 1])
  {
    var w := key[..k + 1];
    assert w == tr.path[n][..k] + [key[k]];
    forall a ensures !Owns(tr, a, w) {
      if Owns(tr, a, w) {
        NextOwner(tr, n, k, key[k], a);
      }
    }
  }

  /** No child for the next element: likewise. */
  lemma MissChild(tr: Tree, key: seq<Elem>, n: nat)
    requires WellFormed(tr) && key != [] && n in tr.nodes && tr.path[n] < key && Inside(tr, n, |tr.path[n]|)
    requires forall i | 0 <= i < |tr.nodes[n].children| :: !StartsWith(tr, tr.nodes[n].children[i], key[|tr.path[n]|])
    requires tr.path[n] == [] ==> tr.shard[n] == ShardOf(key[0], tr.sharding)
    ensures NoOwner(tr, key[..|tr.path[n]| + 1])
  {
    var k := |tr.path[n]|;
    var w := key[..k + 1];
    assert w == tr.path[n][..k] + [key[k]];
    forall a ensures !Owns(tr, a, w) {
      if Owns(tr, a, w) {
        OwnerIsChild(tr, n, key[k], a);
      }
    }
  }

  ghost predicate StartsWith(tr: Tree, c: nat, x: Elem) {
    c in tr.nodes && tr.nodes[c].prefix != [] && tr.nodes[c].prefix[0] == x
  }

  lemma ChildStart(tr: Tree, a: nat)
    requires WellFormed(tr) && a in tr.nodes && tr.parent[a] != EMPTY
    ensures var p := tr.parent[a];
            && p in tr.nodes && a in tr.nodes[p].children && |tr.path[p]| < |tr.path[a]|
            && StartsWith(tr, a, tr.path[a][|tr.path[p]|])
  {
    assert NodeOk(tr, a);
  }

  lemma OwnerIsChild(tr: Tree, n: nat, x: Elem, a: nat)
    requires WellFormed(tr) && n in tr.nodes && Inside(tr, n, |tr.path[n]|) && Owns(tr, a, tr.path[n] + [x])
    requires tr.path[n] == [] ==> ShardOf(x, tr.sharding) == tr.shard[n]
    ensures a in tr.nodes[n].children && StartsWith(tr, a, x)
  {
    var k := |tr.path[n]|;
    assert tr.path[n][..k] == tr.path[n];
    NextOwner(tr, n, k, x, a);
    ChildStart(tr, a);
    assert tr.path[a][..k + 1][k] == x;
  }

  /** Going down to the child that starts with the next element keeps the walk on the key. */
  lemma ReachedChild(tr: Tree, key: seq<Elem>, n: nat, c: nat)
    requires WellFormed(tr) && n in tr.nodes && tr.path[n] < key && c in tr.nodes[n].children
    requires StartsWith(tr, c, key[|tr.path[n]|])
    ensures Reached(tr, key, c, |tr.path[n]|) && tr.parent[c] == n && tr.parent[c] != EMPTY
  {
    assert ChildrenOk(tr, n) && NodeOk(tr, c);
    var i :| 0 <= i < |tr.nodes[n].children| && tr.nodes[n].children[i] == c;
    StartBound(tr, c);
  }

  /** A key that ends strictly inside a prefix is not stored. */
  lemma EndsInside(tr: Tree, key: seq<Elem>, n: nat, m: nat)
    requires WellFormed(tr) && key != [] && Inside(tr, n, |key|) && |key| < |tr.path[n]| && tr.path[n][..|key|] == key
    requires m in tr.nodes
    ensures tr.path[m] != key
  {
    StartBound(tr, n);
    if tr.path[m] == key {
      OwnsItself(tr, m);
      assert Owns(tr, n, key);
      assert false;
    }
  }

  // ---------------------------------------------------------------- what the steps store

  /** The stored map after `key` has been given the record `v`, if any. */
  ghost function Put(c: map<seq<Elem>, nat>, key: seq<Elem>, v: nat): map<seq<Elem>, nat> {
    if v == EMPTY then c else c[key := v]
  }

  /**
   `tr'` stores what `tr` stored and possibly one new key, at `target`; the record of node `from`
   has moved to node `to`, all others stayed where they were.
   */
  lemma StoresStep(tr: Tree, c: map<seq<Elem>, nat>, tr': Tree, target: nat, key: seq<Elem>, v: nat, from: nat, to: nat)
    requires Domains(tr) && Stores(tr, c) && Domains(tr') && key !in c
    requires target in tr'.nodes && tr'.path[target] == key && tr'.nodes[target].record == v
    requires forall m | m in tr'.nodes && m != target ::
               Moved(m, to, from) in tr.nodes && SameEntry(tr, Moved(m, to, from), tr', m)
    requires forall m | m in tr.nodes && tr.nodes[m].record != EMPTY ::
               Moved(m, from, to) in tr'.nodes && SameEntry(tr, m, tr', Moved(m, from, to))
    ensures Stores(tr', Put(c, key, v))
  {
    var c' := Put(c, key, v);
    forall m | m in tr'.nodes ensures Kept(tr', c', m) {
      if m != target {
        assert SameEntry(tr, Moved(m, to, from), tr', m) && Kept(tr, c, Moved(m, to, from));
      }
    }
    forall k | k in c' ensures Held(tr', k, c'[k]) {
      if k == key {
        assert Holds(tr', target, key, v);
      } else {
        var m := HolderOf(tr, c, k);
        assert SameEntry(tr, m, tr', Moved(m, from, to));
        assert Holds(tr', Moved(m, from, to), k, c[k]);
      }
    }
  }

  ghost function Moved(m: nat, from: nat, to: nat): nat {
    if m == from then to else m
  }

  ghost predicate SameEntry(tr: Tree, m: nat, tr': Tree, m': nat)
    requires Domains(tr) && Domains(tr') && m in tr.nodes && m' in tr'.nodes
  {
    tr'.path[m'] == tr.path[m] && tr'.nodes[m'].record == tr.nodes[m].record
  }

  lemma AddChildStores(tr: Tree, c: map<seq<Elem>, nat>, n: nat, suffix: seq<Elem>, value: nat, id: nat)
    requires WellFormed(tr) && Stores(tr, c) && n in tr.nodes && id !in tr.nodes && id != EMPTY
    requires tr.path[n] + suffix !in c
    ensures Domains(AddChild(tr, n, suffix, value, id))
    ensures Stores(AddChild(tr, n, suffix, value, id), Put(c, tr.path[n] + suffix, value))
  {
    StoresStep(tr, c, AddChild(tr, n, suffix, value, id), id, tr.path[n] + suffix, value, id, id);
  }

  lemma CutStores(tr: Tree, c: map<seq<Elem>, nat>, n: nat, bp: nat, value: nat, leg: nat)
    requires Cuttable(tr, n, bp, value, leg) && Stores(tr, c)
    requires tr.path[n][..Start(tr, n) + bp] !in c
    ensures Domains(Cut(tr, n, bp, value, leg))
    ensures Stores(Cut(tr, n, bp, value, leg), Put(c, tr.path[n][..Start(tr, n) + bp], value))
  {
    StoresStep(tr, c, Cut(tr, n, bp, value, leg), n, tr.path[n][..Start(tr, n) + bp], value, n, leg);
  }

  lemma AddRootStores(tr: Tree, c: map<seq<Elem>, nat>, s: nat, prefix: seq<Elem>, value: nat, id: nat)
    requires WellFormed(tr) && Stores(tr, c) && id !in tr.nodes && id != EMPTY && prefix !in c
    ensures Domains(AddRoot(tr, s, prefix, value, id))
    ensures Stores(AddRoot(tr, s, prefix, value, id), Put(c, prefix, value))
  {
    StoresStep(tr, c, AddRoot(tr, s, prefix, value, id), id, prefix, value, id, id);
  }

  lemma SetRecordStores(tr: Tree, c: map<seq<Elem>, nat>, n: nat, value: nat)
    requires WellFormed(tr) && Stores(tr, c) && n in tr.nodes && tr.path[n] !in c && tr.nodes[n].record == EMPTY
    ensures Stores(SetRecord(tr, n, value), Put(c, tr.path[n], value))
  {
    StoresStep(tr, c, SetRecord(tr, n, value), n, tr.path[n], value, EMPTY, EMPTY);
  }
}
