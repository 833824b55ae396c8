/**
 The resumable walk `search_dfs` of crates/opsense-mlib/src/radix.rs, which keeps its own stacks, returns the records
 of the plain recursive search, in the same order.
 */
module RadixOrder {
  import opened Kmp
  import opened RadixDfs
  import opened RadixTree
  import opened RadixWalk
  import opened Wrappers

  // ---------------------------------------------------------------- the recursive search

  /** The child that the walk may enter for the given continuation. */
  ghost predicate Enters(tr: Tree, pattern: seq<Elem>, pos: nat, c: nat) {
    0 < pos < |pattern| && StartsWith(tr, c, pattern[pos])
  }

  /**
   The first node, in depth-first order, at which the matcher completes the pattern: the node of the frame, or below
   it, by continuation and then by child, from those of the frame on.
   */
  ghost function FirstHit(tr: Tree, pattern: seq<Elem>, m: Matcher, f: DfsFrame): Option<nat>
    requires WellFormed(tr) && f.node in tr.nodes
    decreases Room(tr, f.node), |Answer(tr, pattern, m, f).continuations| - f.cont,
              |tr.nodes[f.node].children| - f.child
  {
    var conts := Answer(tr, pattern, m, f).continuations;
    if Answer(tr, pattern, m, f).found then Some(f.node)
    else if f.cont >= |conts| then None
    else if f.child >= |tr.nodes[f.node].children| then FirstHit(tr, pattern, m, f.(cont := f.cont + 1, child := 0))
    else
      var c, pos := Child(tr, f.node, f.child), conts[f.cont];
      var below := if Enters(tr, pattern, pos, c) then FirstHit(tr, pattern, m, DfsFrame(c, pos, 0, 0)) else None;
      if below.Some? then below else FirstHit(tr, pattern, m, f.(child := f.child + 1))
  }

  /** The records of a subtree: that of a node before its children, and again after each of them. */
  ghost function Collected(tr: Tree, n: nat, child: nat): seq<nat>
    requires WellFormed(tr) && n in tr.nodes
    decreases Room(tr, n), |tr.nodes[n].children| - child
  {
    Recorded(tr, n)
    + if child >= |tr.nodes[n].children| then []
      else Collected(tr, Child(tr, n, child), 0) + Collected(tr, n, child + 1)
  }

  // ---------------------------------------------------------------- the stacks

  /** The first hit of the frames from the top of the stack down. */
  ghost function StackHit(tr: Tree, pattern: seq<Elem>, m: Matcher, frames: seq<DfsFrame>): Option<nat>
    requires WellFormed(tr) && FramesIn(tr, frames)
  {
    if frames == [] then None
    else
      var hit := FirstHit(tr, pattern, m, frames[|frames| - 1]);
      if hit.Some? then hit else StackHit(tr, pattern, m, frames[..|frames| - 1])
  }

  ghost function StackCollected(tr: Tree, stack: seq<(nat, nat)>): seq<nat>
    requires WellFormed(tr) && EntriesIn(tr, stack)
  {
    if stack == [] then []
    else
      var (n, child) := stack[|stack| - 1];
      Collected(tr, n, child) + StackCollected(tr, stack[..|stack| - 1])
  }

  /** Pairs that are not entered find nothing. */
  lemma {:induction false} HitByDescent(tr: Tree, pattern: seq<Elem>, m: Matcher, f: DfsFrame)
    requires WellFormed(tr) && f.node in tr.nodes && !Answer(tr, pattern, m, f).found
    ensures match Descent(tr, pattern, m, f)
            case None => FirstHit(tr, pattern, m, f) == None
            case Some(at) =>
              var d := Descended(tr, pattern, m, f, at);
              && d[1].node in tr.nodes
              && FirstHit(tr, pattern, m, f) ==
                 if FirstHit(tr, pattern, m, d[1]).Some? then FirstHit(tr, pattern, m, d[1])
                 else FirstHit(tr, pattern, m, d[0])
    decreases |Answer(tr, pattern, m, f).continuations| - f.cont, |tr.nodes[f.node].children| - f.child
  {
    var conts, cs := Answer(tr, pattern, m, f).continuations, tr.nodes[f.node].children;
    if f.cont < |conts| {
      if conts[f.cont] == 0 || conts[f.cont] >= |pattern| || f.child >= |cs| {
        HitByDescent(tr, pattern, m, f.(cont := f.cont + 1, child := 0));
        NothingEntered(tr, pattern, m, f);
      } else if !StartsWith(tr, cs[f.child], pattern[conts[f.cont]]) {
        HitByDescent(tr, pattern, m, f.(child := f.child + 1));
      } else {
        assert cs[f.child] == Child(tr, f.node, f.child);
      }
    }
  }

  lemma {:induction false} NothingEntered(tr: Tree, pattern: seq<Elem>, m: Matcher, f: DfsFrame)
    requires WellFormed(tr) && f.node in tr.nodes && !Answer(tr, pattern, m, f).found
    requires f.cont < |Answer(tr, pattern, m, f).continuations|
    requires var pos := Answer(tr, pattern, m, f).continuations[f.cont];
             pos == 0 || pos >= |pattern| || f.child >= |tr.nodes[f.node].children|
    ensures FirstHit(tr, pattern, m, f) == FirstHit(tr, pattern, m, f.(cont := f.cont + 1, child := 0))
    decreases |tr.nodes[f.node].children| - f.child
  {
    if f.child < |tr.nodes[f.node].children| {
      NothingEntered(tr, pattern, m, f.(child := f.child + 1));
    }
  }

  lemma {:induction false} SearchStepHit(tr: Tree, pattern: seq<Elem>, m: Matcher, frames: seq<DfsFrame>)
    requires WellFormed(tr) && FramesIn(tr, frames)
    ensures match SearchStep(tr, pattern, m, frames)
            case None => StackHit(tr, pattern, m, frames) == None
            case Some(Collect(r, stack)) => StackHit(tr, pattern, m, frames) == Some(r) && stack == [(r, 0)]
            case Some(Search(next)) => StackHit(tr, pattern, m, next) == StackHit(tr, pattern, m, frames)
    decreases |frames|
  {
    if frames != [] {
      var rest, f := frames[..|frames| - 1], frames[|frames| - 1];
      if !Answer(tr, pattern, m, f).found {
        HitByDescent(tr, pattern, m, f);
        match Descent(tr, pattern, m, f)
        case None => SearchStepHit(tr, pattern, m, rest);
        case Some(at) =>
          var d := Descended(tr, pattern, m, f, at);
          var next := rest + d;
          assert next[..|next| - 1] == rest + [d[0]] && (rest + [d[0]])[..|rest|] == rest;
      }
    }
  }

  lemma StackPush(tr: Tree, rest: seq<(nat, nat)>, e: (nat, nat))
    requires WellFormed(tr) && EntriesIn(tr, rest) && e.0 in tr.nodes
    ensures EntriesIn(tr, rest + [e])
    ensures StackCollected(tr, rest + [e]) == Collected(tr, e.0, e.1) + StackCollected(tr, rest)
  {
    assert (rest + [e])[..|rest|] == rest;
  }

  lemma CollectStepOrder(tr: Tree, stack: seq<(nat, nat)>)
    requires WellFormed(tr) && stack != [] && EntriesIn(tr, stack)
    ensures StackCollected(tr, stack) ==
            Recorded(tr, stack[|stack| - 1].0) + StackCollected(tr, CollectStep(tr, stack))
  {
    var rest, n, child := stack[..|stack| - 1], stack[|stack| - 1].0, stack[|stack| - 1].1;
    if child < |tr.nodes[n].children| {
      CollectNextChild(tr, rest, n, child);
      assert CollectStep(tr, stack) == rest + [(n, child + 1)] + [(Child(tr, n, child), 0)];
    }
  }

  lemma CollectNextChild(tr: Tree, rest: seq<(nat, nat)>, n: nat, child: nat)
    requires WellFormed(tr) && EntriesIn(tr, rest) && n in tr.nodes && child < |tr.nodes[n].children|
    ensures EntriesIn(tr, rest + [(n, child + 1)] + [(Child(tr, n, child), 0)])
    ensures Collected(tr, n, child) + StackCollected(tr, rest) ==
            Recorded(tr, n) + StackCollected(tr, rest + [(n, child + 1)] + [(Child(tr, n, child), 0)])
  {
    var c := Child(tr, n, child);
    StackPush(tr, rest, (n, child + 1));
    StackPush(tr, rest + [(n, child + 1)], (c, 0));
    Regroup(Recorded(tr, n), Collected(tr, c, 0), Collected(tr, n, child + 1), StackCollected(tr, rest));
  }

  lemma Regroup<T>(a: seq<T>, b: seq<T>, c: seq<T>, d: seq<T>)
    ensures a + (b + c) + d == a + (b + (c + d))
  {
  }

  // ---------------------------------------------------------------- the whole walk

  lemma {:induction false} CollectInOrder(tr: Tree, pattern: seq<Elem>, m: Matcher, root: nat,
                                          stack: seq<(nat, nat)>, records: seq<nat>)
    requires WellFormed(tr) && EntriesIn(tr, stack)
    ensures Finish(tr, pattern, m, DfsCheckpoint(Some(Collect(root, stack)), records)) ==
            records + StackCollected(tr, stack)
    decreases EntriesCost(tr, stack)
  {
    var cp := DfsCheckpoint(Some(Collect(root, stack)), records);
    if stack == [] {
      assert Finish(tr, pattern, m, cp) == Finish(tr, pattern, m, DfsCheckpoint(None, records));
    } else {
      CollectStepCost(tr, stack);
      CollectStepOrder(tr, stack);
      CollectInOrder(tr, pattern, m, root, CollectStep(tr, stack), records + Recorded(tr, stack[|stack| - 1].0));
    }
  }

  /** For any matcher: the records of the first subtree that the recursive search finds, in its order. */
  lemma {:induction false} WalkIsRecursive(tr: Tree, pattern: seq<Elem>, m: Matcher, frames: seq<DfsFrame>,
                                           records: seq<nat>)
    requires WellFormed(tr) && FramesIn(tr, frames)
    ensures StackHit(tr, pattern, m, frames).Some? ==> StackHit(tr, pattern, m, frames).value in tr.nodes
    ensures Finish(tr, pattern, m, DfsCheckpoint(Some(Search(frames)), records)) ==
            match StackHit(tr, pattern, m, frames)
            case None => records
            case Some(hit) => records + Collected(tr, hit, 0)
    decreases FramesCost(tr, pattern, m, frames)
  {
    var cp := DfsCheckpoint(Some(Search(frames)), records);
    SearchStepHit(tr, pattern, m, frames);
    SearchStepCost(tr, pattern, m, frames);
    match SearchStep(tr, pattern, m, frames)
    case None => assert Finish(tr, pattern, m, cp) == Finish(tr, pattern, m, DfsCheckpoint(None, records));
    case Some(Collect(r, stack)) =>
      CollectInOrder(tr, pattern, m, r, stack, records);
      assert StackCollected(tr, [(r, 0)]) == Collected(tr, r, 0);
    case Some(Search(next)) => WalkIsRecursive(tr, pattern, m, next, records);
  }
}
