/** Subtrees of the stored trie: the nodes below `n` are those of its shard whose path extends the path of `n`. */
module RadixSubtree {
  import opened RadixTree
  import opened RadixWalk

  ghost predicate Below(tr: Tree, n: nat, m: nat)
    requires Domains(tr)
  {
    n in tr.nodes && m in tr.nodes && tr.shard[m] == tr.shard[n] && tr.path[n] <= tr.path[m]
  }

  lemma BelowChildDirect(tr: Tree, n: nat, c: nat)
    requires WellFormed(tr) && n in tr.nodes && c in tr.nodes[n].children
    ensures Below(tr, n, c) && tr.parent[c] == n && |tr.path[n]| < |tr.path[c]|
  {
    assert ChildrenOk(tr, n);
    var i :| 0 <= i < |tr.nodes[n].children| && tr.nodes[n].children[i] == c;
    assert NodeOk(tr, c);
    assert n in tr.nodes;
  }

  /** Two nodes on the way to the same node lie below one another. */
  lemma Comparable(tr: Tree, a: nat, b: nat, m: nat)
    requires Domains(tr) && Below(tr, a, m) && Below(tr, b, m)
    ensures Below(tr, a, b) || Below(tr, b, a)
  {
    if |tr.path[a]| <= |tr.path[b]| {
      assert tr.path[m][..|tr.path[b]|][..|tr.path[a]|] == tr.path[m][..|tr.path[a]|];
    } else {
      assert tr.path[m][..|tr.path[a]|][..|tr.path[b]|] == tr.path[m][..|tr.path[b]|];
    }
  }

  /** The parent of a proper descendant is still below. */
  lemma BelowParent(tr: Tree, n: nat, m: nat)
    requires WellFormed(tr) && Below(tr, n, m) && m != n
    ensures tr.parent[m] != EMPTY && Below(tr, n, tr.parent[m])
  {
    StartBound(tr, m);
    StartBound(tr, n);
    assert NodeOk(tr, m) && NodeOk(tr, n);
    if |tr.path[n]| > Start(tr, m) {
      OwnsItself(tr, n);
      assert Owns(tr, m, tr.path[n]);
    }
  }

  /** A proper descendant lies below exactly one child: here it is. */
  lemma {:induction false} BelowChild(tr: Tree, n: nat, m: nat) returns (i: nat)
    requires WellFormed(tr) && Below(tr, n, m) && m != n
    ensures i < |tr.nodes[n].children| && Below(tr, tr.nodes[n].children[i], m)
    decreases |tr.path[m]|
  {
    BelowParent(tr, n, m);
    assert NodeOk(tr, m);
    var p := tr.parent[m];
    if p == n {
      i :| 0 <= i < |tr.nodes[n].children| && tr.nodes[n].children[i] == m;
    } else {
      i := BelowChild(tr, n, p);
    }
  }

  lemma SiblingsApart(tr: Tree, n: nat, i: nat, j: nat, m: nat)
    requires WellFormed(tr) && n in tr.nodes && i < |tr.nodes[n].children| && j < |tr.nodes[n].children|
    requires Below(tr, tr.nodes[n].children[i], m) && Below(tr, tr.nodes[n].children[j], m)
    ensures i == j
  {
    var c, d := tr.nodes[n].children[i], tr.nodes[n].children[j];
    BelowChildDirect(tr, n, c);
    BelowChildDirect(tr, n, d);
    StartBound(tr, c);
    StartBound(tr, d);
    var w := tr.path[m][..|tr.path[n]| + 1];
    assert tr.path[c][..|w|] == w && tr.path[d][..|w|] == w;
    assert Owns(tr, c, w) && Owns(tr, d, w);
    assert ChildrenOk(tr, n);
  }

  /** The nodes whose path begins with `p` are those below the node that owns `p`. */
  lemma PrefixIsSubtree(tr: Tree, p: seq<Elem>, n: nat, m: nat)
    requires WellFormed(tr) && p != [] && Owns(tr, n, p) && m in tr.nodes
    ensures p <= tr.path[m] <==> Below(tr, n, m)
  {
    assert NodeOk(tr, n) && NodeOk(tr, m);
    if p <= tr.path[m] {
      var a := PrefixOwned(tr, m, p);
    }
    if Below(tr, n, m) {
      assert tr.path[m][..|tr.path[n]|][..|p|] == tr.path[m][..|p|];
    }
  }

  // ---------------------------------------------------------------- depth-first collection

  /** The stack of a collection below `root`, and the nodes already taken. */
  ghost predicate Sweep(tr: Tree, root: nat, stack: seq<nat>, seen: set<nat>)
    requires Domains(tr)
  {
    && (forall i | 0 <= i < |stack| :: Below(tr, root, stack[i]))
    && (forall i, j | 0 <= i < |stack| && 0 <= j < |stack| && i != j :: !Below(tr, stack[i], stack[j]))
    && (forall m | m in seen :: Below(tr, root, m))
    && (forall i, m | 0 <= i < |stack| && m in seen :: !Below(tr, stack[i], m))
    && (forall m {:trigger Below(tr, root, m)} | Below(tr, root, m) && m !in seen :: Pending(tr, stack, m))
  }

  ghost predicate Pending(tr: Tree, stack: seq<nat>, m: nat)
    requires Domains(tr)
  {
    exists i :: 0 <= i < |stack| && Below(tr, stack[i], m)
  }

  lemma SweepStart(tr: Tree, root: nat)
    requires WellFormed(tr) && root in tr.nodes
    ensures Sweep(tr, root, [root], {})
  {
    forall m | Below(tr, root, m) ensures Pending(tr, [root], m) {
      assert Below(tr, [root][0], m);
    }
  }

  /** Taking the top of the stack and pushing its children. */
  lemma SweepStep(tr: Tree, root: nat, rest: seq<nat>, n: nat, seen: set<nat>)
    requires WellFormed(tr) && n in tr.nodes && Sweep(tr, root, rest + [n], seen)
    ensures Sweep(tr, root, rest + tr.nodes[n].children, seen + {n})
  {
    var prev, cs := rest + [n], tr.nodes[n].children;
    var stack := rest + cs;
    assert prev[|rest|] == n && forall i | 0 <= i < |rest| :: prev[i] == rest[i];
    forall i | 0 <= i < |cs| ensures Below(tr, n, cs[i]) && Below(tr, root, cs[i]) && cs[i] != n {
      BelowChildDirect(tr, n, cs[i]);
      BelowTrans(tr, root, n, cs[i]);
    }
    forall i, j | 0 <= i < |stack| && 0 <= j < |stack| && i != j ensures !Below(tr, stack[i], stack[j]) {
      SweepApart(tr, root, rest, n, seen, i, j);
    }
    forall i, m | 0 <= i < |stack| && m in seen + {n} ensures !Below(tr, stack[i], m) {
      if i < |rest| {
        assert !Below(tr, prev[i], prev[|rest|]);
      } else if Below(tr, stack[i], m) {
        SeenNotUnder(tr, n, stack[i], m);
      }
    }
    forall m | Below(tr, root, m) && m !in seen + {n} ensures Pending(tr, stack, m) {
      var i :| 0 <= i < |prev| && Below(tr, prev[i], m);
      if i < |rest| {
        assert Below(tr, stack[i], m);
      } else {
        var k := BelowChild(tr, n, m);
        assert Below(tr, stack[|rest| + k], m);
      }
    }
  }

  lemma BelowTrans(tr: Tree, a: nat, b: nat, c: nat)
    requires Domains(tr) && Below(tr, a, b) && Below(tr, b, c)
    ensures Below(tr, a, c)
  {
    assert tr.path[c][..|tr.path[b]|][..|tr.path[a]|] == tr.path[c][..|tr.path[a]|];
  }

  lemma SeenNotUnder(tr: Tree, n: nat, c: nat, m: nat)
    requires WellFormed(tr) && n in tr.nodes && c in tr.nodes[n].children && Below(tr, c, m)
    ensures m != n && Below(tr, n, m)
  {
    BelowChildDirect(tr, n, c);
    BelowTrans(tr, n, c, m);
  }

  lemma SweepApart(tr: Tree, root: nat, rest: seq<nat>, n: nat, seen: set<nat>, i: nat, j: nat)
    requires WellFormed(tr) && n in tr.nodes && Sweep(tr, root, rest + [n], seen)
    requires i < |rest + tr.nodes[n].children| && j < |rest + tr.nodes[n].children| && i != j
    ensures !Below(tr, (rest + tr.nodes[n].children)[i], (rest + tr.nodes[n].children)[j])
  {
    var prev, cs := rest + [n], tr.nodes[n].children;
    var stack := rest + cs;
    var a, b := stack[i], stack[j];
    assert i < |rest| ==> prev[i] == a && !Below(tr, a, prev[|rest|]) && !Below(tr, prev[|rest|], a);
    assert j < |rest| ==> prev[j] == b && !Below(tr, prev[|rest|], b);
    if i >= |rest| {
      BelowChildDirect(tr, n, a);
    }
    if j >= |rest| {
      BelowChildDirect(tr, n, b);
    }
    if Below(tr, a, b) {
      if i >= |rest| && j >= |rest| {
        SiblingsApart(tr, n, i - |rest|, j - |rest|, b);
      } else if i >= |rest| {
        BelowTrans(tr, n, a, b);
      } else if j >= |rest| {
        Comparable(tr, a, n, b);
      }
    }
  }
}
