/**
 Doubly linked lists threaded through an arena by index, as in crates/opsense-mlib/src/lru.rs:
 what cutting a node out and putting one in front do to the list that the links spell.
 */
module LruList {
  import opened Wrappers

  const NULL: nat := 0xFFFF_FFFF_FFFF_FFFF

  datatype Node<K, V> = Node(key: Option<K>, value: Option<V>, next: nat, prev: nat)

  datatype Ends = Ends(first: nat, last: nat)

  ghost predicate NoDup<T>(s: seq<T>) {
    forall i, j | 0 <= i < j < |s| :: s[i] != s[j]
  }

  ghost function Before(list: seq<nat>, j: nat): nat
    requires j < |list|
  {
    if j == 0 then NULL else list[j - 1]
  }

  ghost function After(list: seq<nat>, j: nat): nat
    requires j < |list|
  {
    if j + 1 == |list| then NULL else list[j + 1]
  }

  ghost predicate Linked<K, V>(nodes: seq<Node<K, V>>, list: seq<nat>, j: nat)
    requires j < |list|
  {
    list[j] < |nodes| && nodes[list[j]].prev == Before(list, j) && nodes[list[j]].next == After(list, j)
  }

  /**
   From `ends.first` along `next`, and from `ends.last` along `prev`, the links spell `list`: finite, so without
   cycle.
   */
  ghost predicate Chain<K, V>(nodes: seq<Node<K, V>>, list: seq<nat>, ends: Ends) {
    && |nodes| <= NULL
    && ends.first == (if list == [] then NULL else list[0])
    && ends.last == (if list == [] then NULL else list[|list| - 1])
    && NoDup(list)
    && (forall j: nat {:trigger Linked(nodes, list, j)} | j < |list| :: Linked(nodes, list, j))
  }

  /** The free list uses only `next`. */
  ghost predicate FreeChain<K, V>(nodes: seq<Node<K, V>>, list: seq<nat>, head: nat) {
    && |nodes| <= NULL
    && head == (if list == [] then NULL else list[0])
    && NoDup(list)
    && (forall j: nat {:trigger FreeLinked(nodes, list, j)} | j < |list| :: FreeLinked(nodes, list, j))
  }

  ghost predicate FreeLinked<K, V>(nodes: seq<Node<K, V>>, list: seq<nat>, j: nat)
    requires j < |list|
  {
    list[j] < |nodes| && nodes[list[j]].next == After(list, j) && nodes[list[j]].prev == NULL
  }

  /** `list` without position `j`. */
  ghost function Cut<T>(list: seq<T>, j: nat): seq<T>
    requires j < |list|
  {
    list[..j] + list[j + 1..]
  }

  ghost predicate SameContent<K, V>(a: seq<Node<K, V>>, b: seq<Node<K, V>>) {
    |a| == |b| && forall x | 0 <= x < |a| :: a[x].key == b[x].key && a[x].value == b[x].value
  }

  /** Nothing outside `list` is written. */
  ghost predicate SameOutside<K, V>(a: seq<Node<K, V>>, b: seq<Node<K, V>>, list: seq<nat>) {
    |a| == |b| && forall x | 0 <= x < |a| && x !in list :: a[x] == b[x]
  }

  function SetNext<K, V>(nodes: seq<Node<K, V>>, x: nat, n: nat): (r: seq<Node<K, V>>)
    requires x < |nodes|
    ensures |r| == |nodes|
  {
    nodes[x := nodes[x].(next := n)]
  }

  function SetPrev<K, V>(nodes: seq<Node<K, V>>, x: nat, p: nat): (r: seq<Node<K, V>>)
    requires x < |nodes|
    ensures |r| == |nodes|
  {
    nodes[x := nodes[x].(prev := p)]
  }

  // ---------------------------------------------------------------- unlinking

  predicate LinksIn<K, V>(nodes: seq<Node<K, V>>, i: nat) {
    && i < |nodes|
    && (nodes[i].prev != NULL ==> nodes[i].prev < |nodes|)
    && (nodes[i].next != NULL ==> nodes[i].next < |nodes|)
  }

  /** The arena after `unlink_inside_lock`. */
  ghost function Unlinked<K, V>(nodes: seq<Node<K, V>>, i: nat): (r: seq<Node<K, V>>)
    requires LinksIn(nodes, i)
    ensures |r| == |nodes|
  {
    var p, n := nodes[i].prev, nodes[i].next;
    var a := if p != NULL then SetNext(nodes, p, n) else nodes;
    var b := if n != NULL then SetPrev(a, n, p) else a;
    b[i := b[i].(prev := NULL, next := NULL)]
  }

  ghost function UnlinkedEnds<K, V>(nodes: seq<Node<K, V>>, ends: Ends, i: nat): Ends
    requires i < |nodes|
  {
    var p, n := nodes[i].prev, nodes[i].next;
    Ends(if p != NULL then ends.first else n, if n != NULL then ends.last else p)
  }

  lemma CutNoDup<T>(list: seq<T>, j: nat)
    requires NoDup(list) && j < |list|
    ensures NoDup(Cut(list, j)) && list[j] !in Cut(list, j)
    ensures forall x :: x in Cut(list, j) <==> x in list && x != list[j]
  {
    var c := Cut(list, j);
    assert forall k | 0 <= k < |c| :: c[k] == if k < j then list[k] else list[k + 1];
    forall x | x in list && x != list[j] ensures x in c {
      var k :| 0 <= k < |list| && list[k] == x;
      assert k < j ==> c[k] == x;
      assert k > j ==> c[k - 1] == x;
    }
  }

  lemma LinksInside<K, V>(nodes: seq<Node<K, V>>, list: seq<nat>, ends: Ends, j: nat)
    requires Chain(nodes, list, ends) && j < |list|
    ensures LinksIn(nodes, list[j])
  {
    assert Linked(nodes, list, j);
    assert j > 0 ==> Linked(nodes, list, j - 1);
    assert j + 1 < |list| ==> Linked(nodes, list, j + 1);
  }

  /** Cutting out position `j` leaves the list without it. */
  lemma UnlinkChain<K, V>(nodes: seq<Node<K, V>>, list: seq<nat>, ends: Ends, j: nat)
    requires Chain(nodes, list, ends) && j < |list|
    ensures LinksIn(nodes, list[j])
    ensures Chain(Unlinked(nodes, list[j]), Cut(list, j), UnlinkedEnds(nodes, ends, list[j]))
    ensures SameContent(nodes, Unlinked(nodes, list[j])) && SameOutside(nodes, Unlinked(nodes, list[j]), list)
    ensures Unlinked(nodes, list[j])[list[j]].prev == Unlinked(nodes, list[j])[list[j]].next == NULL
  {
    LinksInside(nodes, list, ends, j);
    assert Linked(nodes, list, j);
    var i, c := list[j], Cut(list, j);
    var r := Unlinked(nodes, i);
    CutNoDup(list, j);
    forall k: nat | k < |c| ensures Linked(r, c, k) {
      UnlinkedAt(nodes, list, ends, j, k);
    }
    assert j > 0 ==> Linked(nodes, list, j - 1);
    assert j + 1 < |list| ==> Linked(nodes, list, j + 1);
  }

  lemma UnlinkedAt<K, V>(nodes: seq<Node<K, V>>, list: seq<nat>, ends: Ends, j: nat, k: nat)
    requires Chain(nodes, list, ends) && j < |list| && LinksIn(nodes, list[j]) && k < |Cut(list, j)|
    ensures Linked(Unlinked(nodes, list[j]), Cut(list, j), k)
  {
    var c, from := Cut(list, j), if k < j then k else k + 1;
    assert Linked(nodes, list, j) && Linked(nodes, list, from);
    assert c[k] == list[from];
    assert k > 0 ==> c[k - 1] == if k - 1 < j then list[k - 1] else list[k];
    assert k + 1 < |c| ==> c[k + 1] == if k + 1 < j then list[k + 1] else list[k + 2];
  }

  // ---------------------------------------------------------------- pushing to the front

  /** The arena after a detached node was put in front. */
  ghost function Pushed<K, V>(nodes: seq<Node<K, V>>, ends: Ends, i: nat): (r: seq<Node<K, V>>)
    requires i < |nodes| && (ends.first != NULL ==> ends.first < |nodes|)
    ensures |r| == |nodes|
  {
    var a := nodes[i := nodes[i].(next := ends.first, prev := NULL)];
    if ends.first != NULL then SetPrev(a, ends.first, i) else a
  }

  ghost function PushedEnds(ends: Ends, i: nat): Ends {
    Ends(i, if ends.first == NULL then i else ends.last)
  }

  lemma PushChain<K, V>(nodes: seq<Node<K, V>>, list: seq<nat>, ends: Ends, i: nat)
    requires Chain(nodes, list, ends) && i < |nodes| && i !in list
    ensures ends.first != NULL ==> ends.first < |nodes|
    ensures Chain(Pushed(nodes, ends, i), [i] + list, PushedEnds(ends, i))
    ensures SameContent(nodes, Pushed(nodes, ends, i)) && SameOutside(nodes, Pushed(nodes, ends, i), [i] + list)
  {
    assert list != [] ==> Linked(nodes, list, 0);
    var r, all := Pushed(nodes, ends, i), [i] + list;
    forall k: nat | k < |all| ensures Linked(r, all, k) {
      assert k > 0 ==> Linked(nodes, list, k - 1) && all[k] == list[k - 1];
    }
  }

  // ---------------------------------------------------------------- moving to the front

  /** The arena after `move_to_front_inside_lock`. */
  ghost function Moved<K, V>(nodes: seq<Node<K, V>>, ends: Ends, i: nat): (r: seq<Node<K, V>>)
    requires LinksIn(nodes, i) && (ends.first != NULL ==> ends.first < |nodes|)
    ensures |r| == |nodes|
  {
    if ends.first == i || ends.first == NULL then nodes
    else
      var p, n := nodes[i].prev, nodes[i].next;
      var a := if p != NULL then SetNext(nodes, p, n) else nodes;
      var b := if n != NULL then SetPrev(a, n, p) else a;
      var c := b[i := b[i].(next := ends.first, prev := NULL)];
      SetPrev(c, ends.first, i)
  }

  ghost function MovedEnds<K, V>(nodes: seq<Node<K, V>>, ends: Ends, i: nat): Ends
    requires i < |nodes|
  {
    if ends.first == i || ends.first == NULL then ends
    else Ends(i, if i == ends.last then nodes[i].prev else ends.last)
  }

  /** The list with the node at position `j` moved to the front. */
  ghost function ToFront<T>(list: seq<T>, j: nat): seq<T>
    requires j < |list|
  {
    [list[j]] + Cut(list, j)
  }

  lemma MoveChain<K, V>(nodes: seq<Node<K, V>>, list: seq<nat>, ends: Ends, j: nat)
    requires Chain(nodes, list, ends) && j < |list|
    ensures LinksIn(nodes, list[j]) && ends.first < |nodes|
    ensures Chain(Moved(nodes, ends, list[j]), ToFront(list, j), MovedEnds(nodes, ends, list[j]))
    ensures SameContent(nodes, Moved(nodes, ends, list[j])) && SameOutside(nodes, Moved(nodes, ends, list[j]), list)
  {
    LinksInside(nodes, list, ends, j);
    assert Linked(nodes, list, 0);
    if j == 0 {
      assert ToFront(list, 0) == list;
    } else {
      MoveIsUnlinkPush(nodes, list, ends, j);
      UnlinkChain(nodes, list, ends, j);
      CutNoDup(list, j);
      PushChain(Unlinked(nodes, list[j]), Cut(list, j), UnlinkedEnds(nodes, ends, list[j]), list[j]);
    }
  }

  lemma MoveIsUnlinkPush<K, V>(nodes: seq<Node<K, V>>, list: seq<nat>, ends: Ends, j: nat)
    requires Chain(nodes, list, ends) && 0 < j < |list| && LinksIn(nodes, list[j]) && ends.first < |nodes|
    ensures UnlinkedEnds(nodes, ends, list[j]).first == ends.first
    ensures Moved(nodes, ends, list[j]) == Pushed(Unlinked(nodes, list[j]), UnlinkedEnds(nodes, ends, list[j]), list[j])
    ensures MovedEnds(nodes, ends, list[j]) == PushedEnds(UnlinkedEnds(nodes, ends, list[j]), list[j])
  {
    assert Linked(nodes, list, j) && Linked(nodes, list, j - 1);
    assert j + 1 < |list| ==> Linked(nodes, list, j + 1);
    assert list[0] != list[j];
  }

  /** A detached node moved to the front of a non-empty list is pushed there. */
  lemma MoveDetached<K, V>(nodes: seq<Node<K, V>>, list: seq<nat>, ends: Ends, i: nat)
    requires Chain(nodes, list, ends) && list != [] && i < |nodes| && i !in list
             && nodes[i].prev == nodes[i].next == NULL
    ensures LinksIn(nodes, i) && ends.first < |nodes| && ends.first != NULL
    ensures Moved(nodes, ends, i) == Pushed(nodes, ends, i) && MovedEnds(nodes, ends, i) == PushedEnds(ends, i)
  {
    assert Linked(nodes, list, 0);
  }

  // ---------------------------------------------------------------- frames and the free list

  lemma ChainFrame<K, V>(a: seq<Node<K, V>>, b: seq<Node<K, V>>, list: seq<nat>, ends: Ends)
    requires Chain(a, list, ends) && |a| == |b| && forall x | x in list && x < |a| ::
               a[x].next == b[x].next && a[x].prev == b[x].prev
    ensures Chain(b, list, ends)
  {
    forall j: nat | j < |list| ensures Linked(b, list, j) {
      assert Linked(a, list, j);
    }
  }

  lemma FreeFrame<K, V>(a: seq<Node<K, V>>, b: seq<Node<K, V>>, list: seq<nat>, head: nat)
    requires FreeChain(a, list, head) && |a| == |b| && forall x | x in list && x < |a| ::
               a[x].next == b[x].next && a[x].prev == b[x].prev
    ensures FreeChain(b, list, head)
  {
    forall j: nat | j < |list| ensures FreeLinked(b, list, j) {
      assert FreeLinked(a, list, j);
    }
  }

  /** `free_pop`. */
  lemma PopChain<K, V>(nodes: seq<Node<K, V>>, list: seq<nat>, head: nat)
    requires FreeChain(nodes, list, head) && head != NULL
    ensures list != [] && head == list[0] && head < |nodes| && nodes[head].prev == NULL && head !in list[1..]
    ensures FreeChain(SetNext(nodes, head, NULL), list[1..], nodes[head].next)
  {
    assert FreeLinked(nodes, list, 0);
    assert list[1..] != [] ==> list[1..][0] == list[1];
    var r, rest := SetNext(nodes, head, NULL), list[1..];
    forall j: nat | j < |rest| ensures FreeLinked(r, rest, j) {
      assert FreeLinked(nodes, list, j + 1);
    }
  }

  /** `free_push`. */
  lemma PushFreeChain<K, V>(nodes: seq<Node<K, V>>, list: seq<nat>, head: nat, i: nat)
    requires FreeChain(nodes, list, head) && i < |nodes| && i !in list && nodes[i].prev == NULL
    ensures FreeChain(SetNext(nodes, i, head), [i] + list, i)
  {
    var r, all := SetNext(nodes, i, head), [i] + list;
    forall j: nat | j < |all| ensures FreeLinked(r, all, j) {
      assert j > 0 ==> FreeLinked(nodes, list, j - 1) && all[j] == list[j - 1];
    }
  }
}
