/**
 The multi-pattern substring matcher (crates/opsense-mlib/src/ahocorasick.rs) with the
 default callbacks: equality on blocks, one block per character.

 The automaton is a trie whose states are numbered in creation order. Every proof below
 reads a state as the word on its path from the root, recorded in the ghost field `paths`.
 */
module AhoCorasick {
  import opened Words
  import opened Wrappers

  type Block = string

  /** The default `split_fn`: one single-character block per character. */
  function Split(p: string): (r: seq<Block>)
    ensures |r| == |p|
    ensures forall i | 0 <= i < |p| :: r[i] == [p[i]]
  {
    seq(|p|, i requires 0 <= i < |p| => [p[i]])
  }

  /** Some pattern of `pats` is a contiguous substring of `sample`. */
  ghost predicate SomeOccurs(pats: seq<string>, sample: string) {
    exists k :: 0 <= k < |pats| && Occurs(pats[k], sample)
  }

  lemma SplitReflects(pat: string, text: string, i: nat)
    ensures OccursAt(Split(pat), Split(text), i) <==> OccursAt(pat, text, i)
  {
    if i + |pat| <= |text| {
      if OccursAt(pat, text, i) {
        forall k | 0 <= k < |pat| ensures Split(text)[i..i + |pat|][k] == Split(pat)[k] {
          assert text[i..i + |pat|][k] == pat[k];
        }
      }
      if OccursAt(Split(pat), Split(text), i) {
        forall k | 0 <= k < |pat| ensures text[i..i + |pat|][k] == pat[k] {
          assert Split(text)[i..i + |pat|][k] == Split(pat)[k];
        }
      }
    }
  }

  // ---------------------------------------------------------------- the trie

  /** The part of the automaton that the pattern loop builds, with each state's path. */
  datatype Trie = Trie(labels: seq<Block>, next: seq<map<Block, nat>>, back: seq<nat>, paths: seq<seq<Block>>)

  /** A trie: transitions and parent links are inverse, and no two states share a path. */
  ghost predicate Shape(t: Trie) {
    && 0 < |t.labels| == |t.next| == |t.back| == |t.paths|
    && t.paths[0] == []
    && (forall s | 0 < s < |t.labels| :: EdgeInto(t, s))
    && (forall s, b | 0 <= s < |t.labels| && b in t.next[s] :: EdgeOut(t, s, b))
    && (forall r, s | 0 <= r < |t.labels| && 0 <= s < |t.labels| :: PathsDiffer(t, r, s))
  }

  ghost predicate EdgeOut(t: Trie, s: nat, b: Block)
    requires s < |t.labels| == |t.next| == |t.back| && b in t.next[s]
  {
    0 < t.next[s][b] < |t.labels| && t.back[t.next[s][b]] == s && t.labels[t.next[s][b]] == b
  }

  ghost predicate PathsDiffer(t: Trie, r: nat, s: nat)
    requires r < |t.labels| == |t.paths| && s < |t.labels|
  {
    t.paths[r] == t.paths[s] ==> r == s
  }

  ghost predicate EdgeInto(t: Trie, s: nat)
    requires 0 < s < |t.labels| == |t.next| == |t.back| == |t.paths|
  {
    && t.back[s] < s
    && t.paths[s] == t.paths[t.back[s]] + [t.labels[s]]
    && t.labels[s] in t.next[t.back[s]] && t.next[t.back[s]][t.labels[s]] == s
  }

  /** State `f` spells the longest suffix of `u` that the trie contains. */
  ghost predicate Longest(t: Trie, f: nat, u: seq<Block>)
    requires Shape(t)
  {
    && f < |t.labels|
    && IsSuffix(t.paths[f], u)
    && forall s {:trigger IsSuffix(t.paths[s], u)} | 0 <= s < |t.labels| && IsSuffix(t.paths[s], u) ::
         |t.paths[s]| <= |t.paths[f]|
  }

  /** The meaning of the failure link of `s`: the longest proper suffix of its path in the trie. */
  ghost predicate FailureOk(t: Trie, failure: seq<nat>, s: nat)
    requires Shape(t) && s < |t.labels| == |failure|
  {
    if s == 0 then failure[s] == 0 else |t.paths[s]| > 0 && Longest(t, failure[s], t.paths[s][1..])
  }

  /** While failures are followed on reading `c` after `u`: `s` is at least as deep as any state that can take `c`. */
  ghost predicate Pending(t: Trie, u: seq<Block>, c: Block, s: nat)
    requires Shape(t)
  {
    && s < |t.labels|
    && IsSuffix(t.paths[s], u)
    && forall q {:trigger IsSuffix(t.paths[q], u)} | 0 <= q < |t.labels| && IsSuffix(t.paths[q], u) && c in t.next[q] ::
         |t.paths[q]| <= |t.paths[s]|
  }

  /** A matching transition out of a pending state gives the longest suffix after `c`. */
  lemma StepFound(t: Trie, u: seq<Block>, c: Block, s: nat)
    requires Shape(t) && Pending(t, u, c, s) && c in t.next[s]
    ensures Longest(t, t.next[s][c], u + [c])
  {
    var f := t.next[s][c];
    assert EdgeOut(t, s, c) && EdgeInto(t, f);
    SuffixSnoc(t.paths[s], c, u, c);
    forall q | 0 <= q < |t.labels| && IsSuffix(t.paths[q], u + [c]) ensures |t.paths[q]| <= |t.paths[f]| {
      if q != 0 {
        assert EdgeInto(t, q);
        SuffixSnoc(t.paths[t.back[q]], t.labels[q], u, c);
      }
    }
  }

  /** Without a transition, the failure link leads to the next candidate, which is shallower. */
  lemma StepFail(t: Trie, u: seq<Block>, c: Block, s: nat, f: nat)
    requires Shape(t) && Pending(t, u, c, s) && s != 0 && c !in t.next[s]
    requires |t.paths[s]| > 0 && Longest(t, f, t.paths[s][1..])
    ensures Pending(t, u, c, f) && |t.paths[f]| < |t.paths[s]|
  {
    ProperSuffix(t.paths[f], t.paths[s]);
    SuffixTrans(t.paths[f], t.paths[s], u);
    forall q | 0 <= q < |t.labels| && IsSuffix(t.paths[q], u) && c in t.next[q]
      ensures |t.paths[q]| <= |t.paths[f]|
    {
      SuffixOfSuffix(t.paths[q], t.paths[s], u);
      assert PathsDiffer(t, q, s);
      ProperSuffix(t.paths[q], t.paths[s]);
    }
  }

  /** When even the root cannot take `c`, only the empty suffix is left. */
  lemma StepRoot(t: Trie, u: seq<Block>, c: Block)
    requires Shape(t) && Pending(t, u, c, 0) && c !in t.next[0]
    ensures Longest(t, 0, u + [c])
  {
    EmptySuffix(u + [c]);
    forall q | 0 <= q < |t.labels| && IsSuffix(t.paths[q], u + [c]) ensures |t.paths[q]| == 0 {
      if q != 0 {
        assert EdgeInto(t, q) && PathsDiffer(t, t.back[q], 0);
        SuffixSnoc(t.paths[t.back[q]], t.labels[q], u, c);
      }
    }
  }

  lemma LongestIsPending(t: Trie, u: seq<Block>, c: Block, s: nat)
    requires Shape(t) && Longest(t, s, u)
    ensures Pending(t, u, c, s)
  {
  }

  /** Adding a fresh child keeps the shape and extends every path table entry. */
  lemma GrowKeepsShape(t: Trie, cur: nat, b: Block)
    requires Shape(t) && cur < |t.labels| && b !in t.next[cur]
    ensures Shape(Grow(t, cur, b))
  {
    var n := |t.labels|;
    var t' := Grow(t, cur, b);
    assert EdgeInto(t', n);
    forall s | 0 < s < n ensures EdgeInto(t', s) {
      assert EdgeInto(t, s);
    }
    forall r | 0 <= r < n ensures t.paths[r] != t'.paths[n] {
      if r != 0 {
        assert EdgeInto(t, r);
        SnocInjective(t.paths[t.back[r]], t.labels[r], t.paths[cur], b);
        assert PathsDiffer(t, t.back[r], cur);
      }
    }
    forall s, c | 0 <= s < |t'.labels| && c in t'.next[s] ensures EdgeOut(t', s, c) {
      assert s < n && c in t.next[s] ==> EdgeOut(t, s, c);
    }
    forall r, s | 0 <= r < |t'.labels| && 0 <= s < |t'.labels| ensures PathsDiffer(t', r, s) {
      assert r < n && s < n ==> PathsDiffer(t, r, s);
    }
  }

  ghost function Grow(t: Trie, cur: nat, b: Block): Trie
    requires Shape(t) && cur < |t.labels|
  {
    var edges: map<Block, nat> := t.next[cur][b := |t.labels|];
    Trie(t.labels + [b], t.next[cur := edges] + [map[]], t.back + [cur], t.paths + [t.paths[cur] + [b]])
  }

  // ---------------------------------------------------------------- outputs

  /** Exactly the states that spell one of `pats` carry an output, and every one of `pats` is spelled. */
  ghost predicate OutputsOk(t: Trie, output: seq<Option<nat>>, pats: seq<string>)
    requires Shape(t)
  {
    && |output| == |t.labels|
    && (forall s | 0 <= s < |output| && output[s].Some? ::
          output[s].value < |pats| && t.paths[s] == Split(pats[output[s].value]))
    && (forall i {:trigger Spelled(t, output, pats[i])} | 0 <= i < |pats| :: Spelled(t, output, pats[i]))
  }

  ghost predicate Spells(t: Trie, output: seq<Option<nat>>, p: string, s: nat)
    requires Shape(t) && |output| == |t.labels|
  {
    s < |output| && output[s].Some? && t.paths[s] == Split(p)
  }

  ghost predicate Spelled(t: Trie, output: seq<Option<nat>>, p: string)
    requires Shape(t) && |output| == |t.labels|
  {
    exists s: nat :: Spells(t, output, p, s)
  }

  ghost predicate RootInputsOk(t: Trie, roots: seq<nat>)
    requires Shape(t)
  {
    && (forall k | 0 <= k < |roots| :: 0 < roots[k] < |t.labels| && t.back[roots[k]] == 0)
    && (forall s | 0 < s < |t.labels| && t.back[s] == 0 :: s in roots)
  }

  /** No state at or below the failure chain of a longest suffix hides an output: see `Similar`. */
  ghost predicate NoOutputEndsAt(t: Trie, output: seq<Option<nat>>, u: seq<Block>)
    requires Shape(t) && |output| == |t.labels|
  {
    forall s {:trigger IsSuffix(t.paths[s], u)} | 0 <= s < |t.labels| && output[s].Some? :: !IsSuffix(t.paths[s], u)
  }

  ghost predicate TrieFor(t: Trie, output: seq<Option<nat>>, roots: seq<nat>, pats: seq<string>) {
    Shape(t) && OutputsOk(t, output, pats) && RootInputsOk(t, roots)
  }

  ghost predicate Blank(t: Trie, failure: seq<nat>) {
    |failure| == |t.labels| && forall s | 0 <= s < |failure| :: failure[s] == 0
  }

  ghost predicate Linked(t: Trie, failure: seq<nat>)
    requires Shape(t)
  {
    |failure| == |t.labels| && forall s | 0 <= s < |t.labels| :: FailureOk(t, failure, s)
  }

  // ---------------------------------------------------------------- the matcher

  class AhoCorasick {
    var patternMapping: map<string, nat>
    var patterns: seq<string>
    var labels: seq<Block>
    var next: seq<map<Block, nat>>
    var back: seq<nat>
    var failure: seq<nat>
    var output: seq<Option<nat>>
    var rootInputs: seq<nat>
    var isOptimized: bool
    ghost var paths: seq<seq<Block>>

    ghost function Tr(): Trie
      reads this
    {
      Trie(labels, next, back, paths)
    }

    ghost predicate Registered()
      reads this
    {
      && |patternMapping| == |patterns|
      && (forall i | 0 <= i < |patterns| ::
            patterns[i] != "" && patterns[i] in patternMapping && patternMapping[patterns[i]] == i)
      && (forall p | p in patternMapping :: patternMapping[p] < |patterns| && patterns[patternMapping[p]] == p)
    }

    /** The trie holds the first `k` patterns and no failure link is set yet. */
    ghost predicate Growing(k: nat)
      reads this
    {
      k <= |patterns| && TrieFor(Tr(), output, rootInputs, patterns[..k]) && Blank(Tr(), failure)
    }

    ghost predicate Built()
      reads this
    {
      TrieFor(Tr(), output, rootInputs, patterns) && Linked(Tr(), failure)
    }

    ghost predicate Valid()
      reads this
    {
      Registered() && (isOptimized ==> Built())
    }

    constructor ()
      ensures Valid() && patterns == [] && !isOptimized
    {
      patternMapping, patterns := map[], [];
      labels, next, back, failure, output, rootInputs := [""], [map[]], [0], [0], [None], [];
      isOptimized := false;
      paths := [[]];
    }

    method Add(pattern: string)
      requires Valid()
      modifies this
      ensures Valid()
      ensures patterns == if pattern == "" || pattern in old(patterns) then old(patterns) else old(patterns) + [pattern]
      ensures isOptimized == (old(isOptimized) && patterns == old(patterns))
    {
      if pattern != "" && pattern !in patternMapping {
        patternMapping := patternMapping[pattern := |patternMapping|];
        patterns := patterns + [pattern];
        isOptimized := false;
      }
    }

    /** Rebuilds the automaton from the registered patterns: first the trie, then the failure links. */
    method Optimize()
      requires Valid()
      modifies this
      ensures Valid() && isOptimized && patterns == old(patterns)
    {
      BuildTrie();
      BuildFailures();
      isOptimized := true;
    }

    /** Resets the automaton and runs the pattern loop. */
    method BuildTrie()
      modifies `labels, `next, `back, `failure, `output, `rootInputs, `paths
      ensures Growing(|patterns|)
    {
      labels, next, back, failure, output, rootInputs := [""], [map[]], [0], [0], [None], [];
      paths := [[]];
      EmptyTrie();
      for i := 0 to |patterns|
        invariant Growing(i)
      {
        InsertPattern(i);
      }
    }

    /** The body of the pattern loop: walk the trie along pattern `i`, creating missing states. */
    method InsertPattern(i: nat)
      requires Growing(i) && i < |patterns|
      modifies `labels, `next, `back, `failure, `output, `rootInputs, `paths
      ensures Growing(i + 1)
    {
      var blocks := Split(patterns[i]);
      var state := |labels|;
      var currentState: nat := 0;
      var nextState: nat := 0;
      ghost var t, pats := Tr(), patterns[..i];
      for k := 0 to |blocks|
        invariant Tr() == t && TrieFor(t, output, rootInputs, pats) && Blank(t, failure)
        invariant state == |labels| && currentState == nextState < |labels|
        invariant t.paths[currentState] == blocks[..k]
      {
        var block := blocks[k];
        if block in next[currentState] {
          nextState := next[currentState][block];
          assert EdgeOut(t, currentState, block) && EdgeInto(t, nextState);
        } else {
          TrieGrow(t, output, rootInputs, pats, currentState, block);
          AddState(currentState, block);
          t := Grow(t, currentState, block);
          nextState := state;
          state := state + 1;
        }
        currentState := nextState;
        assert blocks[..k + 1] == blocks[..k] + [block];
      }
      assert blocks[..|blocks|] == blocks;
      assert patterns[..i + 1] == pats + [patterns[i]];
      OutputsMark(t, output, pats, nextState, patterns[i]);
      output := output[nextState := Some(i)];
    }

    /** Creates the state reached from `cur` by `block`. */
    method AddState(cur: nat, block: Block)
      requires Shape(Tr()) && cur < |labels|
      modifies `labels, `next, `back, `failure, `output, `rootInputs, `paths
      ensures Tr() == Grow(old(Tr()), cur, block)
      ensures failure == old(failure) + [0] && output == old(output) + [None]
      ensures rootInputs == RootsGrow(old(rootInputs), cur, |old(labels)|)
    {
      var index := |labels|;
      var edges: map<Block, nat> := next[cur][block := index];
      next := next[cur := edges];
      labels := labels + [block];
      next := next + [map[]];
      back := back + [cur];
      failure := failure + [0];
      output := output + [None];
      if cur == 0 {
        rootInputs := rootInputs + [index];
      }
      paths := paths + [paths[cur] + [block]];
    }

    /** Breadth-first computation of the failure links. */
    method BuildFailures()
      requires Shape(Tr()) && Blank(Tr(), failure)
      modifies `failure
      ensures Linked(Tr(), failure)
    {
      var queue: seq<nat> := [0];
      ghost var done: set<nat> := {};
      ghost var t := Tr();
      while queue != []
        invariant Tr() == t && Frontier(t, queue, done) && DoneOk(t, failure, done)
        decreases Upto(|labels|) - done
      {
        var i := queue[0];
        ShallowAllDone(t, queue, done);
        var f := LinkOf(i, t);
        var children := Children(i, t);
        DoneStep(t, failure, done, i, f);
        FrontierStep(t, queue, done, children);
        failure := failure[i := f];
        queue := queue[1..] + children;
        done := done + {i};
      }
      forall s | 0 <= s < |labels| ensures FailureOk(t, failure, s) {
        AllDone(t, done, s);
      }
    }

    /** The failure link of `i`, given those of all shallower states. */
    method LinkOf(i: nat, ghost t: Trie) returns (f: nat)
      requires t == Tr() && Shape(t) && |failure| == |labels| && i < |labels|
      requires forall s | 0 <= s < |labels| && |paths[s]| < |paths[i]| :: FailureOk(t, failure, s)
      ensures f < |labels| && FailureOk(t, failure[i := f], i)
    {
      f := 0;
      if i != 0 {
        assert EdgeInto(t, i);
        var p := back[i];
        if p != 0 {
          assert EdgeInto(t, p) && FailureOk(t, failure, p);
          ghost var u := paths[p][1..];
          ProperSuffix(paths[failure[p]], paths[p]);
          LongestIsPending(t, u, labels[i], failure[p]);
          f := FollowFailures(failure[p], labels[i], t, u);
          assert paths[i][1..] == u + [labels[i]];
        } else {
          EmptySuffix(paths[i][1..]);
        }
      }
    }

    /** The inner loop of `optimize`: from `start`, follow failures until a state can take `lab`. */
    method FollowFailures(start: nat, lab: Block, ghost t: Trie, ghost u: seq<Block>) returns (f: nat)
      requires t == Tr() && Shape(t) && |failure| == |labels| && Pending(t, u, lab, start)
      requires forall s | 0 <= s < |labels| && |paths[s]| <= |paths[start]| :: FailureOk(t, failure, s)
      ensures Longest(t, f, u + [lab])
    {
      var failureOfPrevious := start;
      var breakAtLast := false;
      while true
        invariant Pending(t, u, lab, failureOfPrevious)
        invariant |paths[failureOfPrevious]| <= |paths[start]|
        invariant breakAtLast ==> failureOfPrevious == 0 && lab !in next[0]
        decreases |paths[failureOfPrevious]|, !breakAtLast
      {
        if lab in next[failureOfPrevious] {
          StepFound(t, u, lab, failureOfPrevious);
          return next[failureOfPrevious][lab];
        }
        if breakAtLast {
          StepRoot(t, u, lab);
          return 0;
        }
        var tryFailure := failure[failureOfPrevious];
        assert FailureOk(t, failure, failureOfPrevious);
        if failureOfPrevious != 0 {
          StepFail(t, u, lab, failureOfPrevious, tryFailure);
        }
        if tryFailure == failureOfPrevious {
          breakAtLast := true;
        }
        failureOfPrevious := tryFailure;
      }
    }

    /** `next[i].values()`: the children of `i`, each once. */
    method Children(i: nat, ghost t: Trie) returns (r: seq<nat>)
      requires t == Tr() && Shape(t) && i < |labels|
      ensures ChildList(t, i, r)
    {
      r := [];
      var rest := next[i].Keys;
      while rest != {}
        invariant rest <= next[i].Keys
        invariant forall k | 0 <= k < |r| :: 0 < r[k] < |labels| && back[r[k]] == i && labels[r[k]] !in rest
        invariant forall b | b in next[i] && b !in rest :: next[i][b] in r
        invariant forall j, k | 0 <= j < k < |r| :: r[j] != r[k]
        decreases rest
      {
        var b :| b in rest;
        assert EdgeOut(t, i, b);
        rest := rest - {b};
        r := r + [next[i][b]];
      }
      forall s | 0 < s < |labels| && back[s] == i ensures s in r {
        assert EdgeInto(t, s);
      }
    }

    /** Whether some registered pattern occurs in `sample`; always false before `Optimize`. */
    method Similar(sample: string) returns (r: bool)
      requires Valid()
      ensures r <==> isOptimized && SomeOccurs(patterns, sample)
    {
      var blocks := Split(sample);
      if !isOptimized {
        return false;
      }
      ghost var t := Tr();
      RootHasNoOutput(t, output, patterns);
      r := Scan(blocks, t);
      CleanIffNone(t, output, patterns, sample);
    }

    /** The main loop of `similar`: runs the automaton and probes the failure chain after every block. */
    method Scan(blocks: seq<Block>, ghost t: Trie) returns (hit: bool)
      requires t == Tr() && Shape(t) && RootInputsOk(t, rootInputs) && Linked(t, failure)
      requires |output| == |labels| && output[0].None?
      ensures hit <==> !Clean(t, output, blocks, |blocks|)
    {
      var state: nat := 0;
      var i: nat := 0;
      RootOfEmpty(t, output);
      assert blocks[..0] == [];
      while i < |blocks|
        invariant i <= |blocks| && Progress(t, blocks, i, state)
        invariant Clean(t, output, blocks, i)
        decreases |blocks| - i, |paths[state]|
      {
        var block := blocks[i];
        if state == 0 {
          state := FirstInput(block, t, blocks[..i]);
        } else if block in next[state] {
          StepFound(t, blocks[..i], block, state);
          state := next[state][block];
        } else {
          assert FailureOk(t, failure, state);
          StepFail(t, blocks[..i], block, state, failure[state]);
          state := failure[state];
          continue;
        }
        assert blocks[..i + 1] == blocks[..i] + [block];
        hit := Probe(state, t, blocks[..i + 1]);
        if hit {
          return true;
        }
        LongestIsProgress(t, blocks, i + 1, state);
        i := i + 1;
      }
      return false;
    }

    /** The scan of `root_inputs` made in the root state. */
    method FirstInput(block: Block, ghost t: Trie, ghost u: seq<Block>) returns (state: nat)
      requires t == Tr() && Shape(t) && RootInputsOk(t, rootInputs) && Pending(t, u, block, 0)
      ensures Longest(t, state, u + [block])
    {
      for k := 0 to |rootInputs|
        invariant forall j | 0 <= j < k :: labels[rootInputs[j]] != block
      {
        if block == labels[rootInputs[k]] {
          assert EdgeInto(t, rootInputs[k]);
          StepFound(t, u, block, 0);
          return rootInputs[k];
        }
      }
      assert block !in next[0];
      StepRoot(t, u, block);
      return 0;
    }

    /** The failure-chain walk: does some output end where `u`, read so far, ends? */
    method Probe(state: nat, ghost t: Trie, ghost u: seq<Block>) returns (hit: bool)
      requires t == Tr() && Shape(t) && Linked(t, failure) && |output| == |labels| && output[0].None?
      requires Longest(t, state, u)
      ensures hit <==> !NoOutputEndsAt(t, output, u)
    {
      var probe: nat := state;
      while probe != 0
        invariant Probing(t, output, u, probe)
        decreases |paths[probe]|
      {
        if output[probe].Some? {
          return true;
        }
        assert FailureOk(t, failure, probe);
        ProbeStep(t, output, u, probe, failure[probe]);
        probe := failure[probe];
      }
      ProbeEnd(t, output, u);
      return false;
    }
  }

  // ---------------------------------------------------------------- outputs while growing

  lemma EmptyTrie()
    ensures TrieFor(Trie([""], [map[]], [0], [[]]), [None], [], [])
  {
  }

  lemma OutputsGrow(t: Trie, output: seq<Option<nat>>, pats: seq<string>, cur: nat, b: Block)
    requires Shape(t) && cur < |t.labels| && b !in t.next[cur] && OutputsOk(t, output, pats)
    ensures Shape(Grow(t, cur, b)) && OutputsOk(Grow(t, cur, b), output + [None], pats)
  {
    GrowKeepsShape(t, cur, b);
    forall i | 0 <= i < |pats|
      ensures Spelled(Grow(t, cur, b), output + [None], pats[i])
    {
      assert Spelled(t, output, pats[i]);
      var s: nat :| Spells(t, output, pats[i], s);
      assert Spells(Grow(t, cur, b), output + [None], pats[i], s);
    }
  }

  function RootsGrow(roots: seq<nat>, cur: nat, index: nat): seq<nat> {
    if cur == 0 then roots + [index] else roots
  }

  lemma TrieGrow(t: Trie, output: seq<Option<nat>>, roots: seq<nat>, pats: seq<string>, cur: nat, b: Block)
    requires TrieFor(t, output, roots, pats) && cur < |t.labels| && b !in t.next[cur]
    ensures TrieFor(Grow(t, cur, b), output + [None], RootsGrow(roots, cur, |t.labels|), pats)
  {
    OutputsGrow(t, output, pats, cur, b);
    var roots' := RootsGrow(roots, cur, |t.labels|);
    assert forall s | s in roots :: s in roots';
    assert cur == 0 ==> roots'[|roots|] == |t.labels|;
  }

  lemma OutputsMark(t: Trie, output: seq<Option<nat>>, pats: seq<string>, s: nat, p: string)
    requires Shape(t) && OutputsOk(t, output, pats) && s < |output| && t.paths[s] == Split(p)
    ensures OutputsOk(t, output[s := Some(|pats|)], pats + [p])
  {
    var output' := output[s := Some(|pats|)];
    assert Spells(t, output', p, s);
    forall i | 0 <= i < |pats| ensures Spelled(t, output', pats[i]) {
      assert Spelled(t, output, pats[i]);
      var r: nat :| Spells(t, output, pats[i], r);
      assert Spells(t, output', pats[i], r);
    }
  }

  // ---------------------------------------------------------------- breadth-first order

  ghost predicate ChildList(t: Trie, i: nat, r: seq<nat>)
    requires Shape(t)
  {
    && (forall k | 0 <= k < |r| :: 0 < r[k] < |t.labels| && t.back[r[k]] == i)
    && (forall s | 0 < s < |t.labels| && t.back[s] == i :: s in r)
    && (forall j, k | 0 <= j < k < |r| :: r[j] != r[k])
  }

  /** Queue and finished states of a breadth-first traversal from the root. */
  ghost predicate Frontier(t: Trie, queue: seq<nat>, done: set<nat>)
    requires Shape(t)
  {
    Waiting(t, queue, done) && Layered(t, queue) && Spread(t, queue, done)
  }

  ghost predicate Waiting(t: Trie, queue: seq<nat>, done: set<nat>) {
    && (forall s | s in done :: s < |t.labels|)
    && (forall k | 0 <= k < |queue| :: queue[k] < |t.labels| && queue[k] !in done)
    && (forall j, k | 0 <= j < k < |queue| :: queue[j] != queue[k])
  }

  ghost predicate Layered(t: Trie, queue: seq<nat>)
    requires |t.paths| == |t.labels|
  {
    && (forall k | 0 <= k < |queue| :: queue[k] < |t.labels|)
    && (forall j, k | 0 <= j < k < |queue| :: |t.paths[queue[j]]| <= |t.paths[queue[k]]| <= |t.paths[queue[j]]| + 1)
  }

  ghost predicate Spread(t: Trie, queue: seq<nat>, done: set<nat>)
    requires |t.back| == |t.labels|
  {
    && (0 in done || 0 in queue)
    && (forall s | 0 < s < |t.labels| :: t.back[s] in done <==> (s in done || s in queue))
  }

  /** Whatever is shallower than the head of the queue is finished. */
  lemma {:induction false} ShallowDone(t: Trie, queue: seq<nat>, done: set<nat>, s: nat)
    requires Shape(t) && queue != [] && Frontier(t, queue, done)
    requires s < |t.labels| && |t.paths[s]| < |t.paths[queue[0]]|
    ensures s in done
  {
    if s != 0 {
      assert EdgeInto(t, s);
      ShallowDone(t, queue, done, t.back[s]);
    }
  }

  lemma ShallowAllDone(t: Trie, queue: seq<nat>, done: set<nat>)
    requires Shape(t) && queue != [] && Frontier(t, queue, done)
    ensures forall s | 0 <= s < |t.labels| && |t.paths[s]| < |t.paths[queue[0]]| :: s in done
  {
    forall s | 0 <= s < |t.labels| && |t.paths[s]| < |t.paths[queue[0]]| ensures s in done {
      ShallowDone(t, queue, done, s);
    }
  }

  /** Finished states have their final failure link, the others none. */
  ghost predicate DoneOk(t: Trie, failure: seq<nat>, done: set<nat>)
    requires Shape(t)
  {
    && |failure| == |t.labels|
    && (forall s {:trigger FailureOk(t, failure, s)} | 0 <= s < |t.labels| && s in done :: FailureOk(t, failure, s))
    && (forall s | 0 <= s < |t.labels| && s !in done :: failure[s] == 0)
  }

  lemma DoneStep(t: Trie, failure: seq<nat>, done: set<nat>, i: nat, f: nat)
    requires Shape(t) && DoneOk(t, failure, done) && i < |t.labels| && FailureOk(t, failure[i := f], i)
    ensures DoneOk(t, failure[i := f], done + {i})
  {
    forall s | 0 <= s < |t.labels| && s in done + {i} ensures FailureOk(t, failure[i := f], s) {
      assert s in done ==> FailureOk(t, failure, s);
    }
  }

  lemma {:induction false} AllDone(t: Trie, done: set<nat>, s: nat)
    requires Shape(t) && Frontier(t, [], done) && s < |t.labels|
    ensures s in done
  {
    if s != 0 {
      assert EdgeInto(t, s);
      AllDone(t, done, t.back[s]);
    }
  }

  lemma FrontierStep(t: Trie, queue: seq<nat>, done: set<nat>, children: seq<nat>)
    requires Shape(t) && queue != [] && Frontier(t, queue, done) && ChildList(t, queue[0], children)
    ensures Frontier(t, queue[1..] + children, done + {queue[0]})
  {
    forall k | 0 <= k < |children| ensures |t.paths[children[k]]| == |t.paths[queue[0]]| + 1 {
      assert EdgeInto(t, children[k]);
    }
    forall k | 0 <= k < |children| ensures children[k] != queue[0] {
      assert EdgeInto(t, children[k]);
    }
    WaitingStep(t, queue, done, children);
    LayeredStep(t, queue, children);
    SpreadStep(t, queue, done, children);
  }

  lemma WaitingStep(t: Trie, queue: seq<nat>, done: set<nat>, children: seq<nat>)
    requires |t.back| == |t.labels| && queue != [] && Waiting(t, queue, done) && Spread(t, queue, done)
    requires forall k | 0 <= k < |children| ::
               0 < children[k] < |t.labels| && t.back[children[k]] == queue[0] != children[k]
    requires forall j, k | 0 <= j < k < |children| :: children[j] != children[k]
    ensures Waiting(t, queue[1..] + children, done + {queue[0]})
  {
    forall k | 0 <= k < |children| ensures children[k] !in queue && children[k] !in done {
      assert t.back[children[k]] !in done;
    }
  }

  lemma LayeredStep(t: Trie, queue: seq<nat>, children: seq<nat>)
    requires |t.paths| == |t.labels| && queue != [] && Layered(t, queue)
    requires forall k | 0 <= k < |children| ::
               children[k] < |t.labels| && |t.paths[children[k]]| == |t.paths[queue[0]]| + 1
    ensures Layered(t, queue[1..] + children)
  {
  }

  lemma SpreadStep(t: Trie, queue: seq<nat>, done: set<nat>, children: seq<nat>)
    requires |t.back| == |t.labels| && queue != [] && Spread(t, queue, done)
    requires forall k | 0 <= k < |children| :: 0 < children[k] < |t.labels| && t.back[children[k]] == queue[0]
    requires forall s | 0 < s < |t.labels| && t.back[s] == queue[0] :: s in children
    ensures Spread(t, queue[1..] + children, done + {queue[0]})
  {
    assert queue == [queue[0]] + queue[1..];
    assert forall s :: s in queue <==> s == queue[0] || s in queue[1..];
    assert forall s :: s in queue[1..] + children <==> s in queue[1..] || s in children;
  }

  /** The state numbers `0 .. n - 1`. */
  ghost function Upto(n: nat): (r: set<nat>)
    ensures forall s: nat :: s in r <==> s < n
  {
    if n == 0 then {} else Upto(n - 1) + {n - 1}
  }

  // ---------------------------------------------------------------- running the automaton

  /** What the scan keeps: at the end of the text nothing, before it a pending state. */
  ghost predicate Progress(t: Trie, blocks: seq<Block>, i: nat, state: nat)
    requires Shape(t) && i <= |blocks|
  {
    state < |t.labels| && (i < |blocks| ==> Pending(t, blocks[..i], blocks[i], state))
  }

  /** No output ends at any of the first `i` positions. */
  ghost predicate Clean(t: Trie, output: seq<Option<nat>>, blocks: seq<Block>, i: nat)
    requires Shape(t) && |output| == |t.labels| && i <= |blocks|
  {
    forall j | 0 <= j <= i :: NoOutputEndsAt(t, output, blocks[..j])
  }

  lemma LongestIsProgress(t: Trie, blocks: seq<Block>, i: nat, state: nat)
    requires Shape(t) && i <= |blocks| && Longest(t, state, blocks[..i])
    ensures Progress(t, blocks, i, state)
  {
  }

  /** While the failure chain is probed after reading `u`: every output ending here is at most as deep as `probe`. */
  ghost predicate Probing(t: Trie, output: seq<Option<nat>>, u: seq<Block>, probe: nat)
    requires Shape(t) && |output| == |t.labels|
  {
    && probe < |t.labels|
    && IsSuffix(t.paths[probe], u)
    && forall s {:trigger IsSuffix(t.paths[s], u)} | 0 <= s < |t.labels| && output[s].Some?
    && IsSuffix(t.paths[s], u) ::
         |t.paths[s]| <= |t.paths[probe]|
  }

  lemma ProbeStep(t: Trie, output: seq<Option<nat>>, u: seq<Block>, probe: nat, f: nat)
    requires Shape(t) && |output| == |t.labels| && Probing(t, output, u, probe) && output[probe].None?
    requires |t.paths[probe]| > 0 && Longest(t, f, t.paths[probe][1..])
    ensures Probing(t, output, u, f) && |t.paths[f]| < |t.paths[probe]|
  {
    ProperSuffix(t.paths[f], t.paths[probe]);
    SuffixTrans(t.paths[f], t.paths[probe], u);
    forall s | 0 <= s < |t.labels| && output[s].Some? && IsSuffix(t.paths[s], u) ensures |t.paths[s]| <= |t.paths[f]| {
      SuffixOfSuffix(t.paths[s], t.paths[probe], u);
      assert PathsDiffer(t, s, probe);
      ProperSuffix(t.paths[s], t.paths[probe]);
    }
  }

  lemma ProbeEnd(t: Trie, output: seq<Option<nat>>, u: seq<Block>)
    requires Shape(t) && |output| == |t.labels| && output[0].None? && Probing(t, output, u, 0)
    ensures NoOutputEndsAt(t, output, u)
  {
    forall s | 0 <= s < |t.labels| && output[s].Some? ensures !IsSuffix(t.paths[s], u) {
      assert PathsDiffer(t, s, 0);
    }
  }

  lemma RootOfEmpty(t: Trie, output: seq<Option<nat>>)
    requires Shape(t) && |output| == |t.labels| && output[0].None?
    ensures Longest(t, 0, []) && NoOutputEndsAt(t, output, [])
  {
    EmptySuffix<Block>([]);
    ProbeEnd(t, output, []);
  }

  lemma RootHasNoOutput(t: Trie, output: seq<Option<nat>>, pats: seq<string>)
    requires Shape(t) && OutputsOk(t, output, pats) && forall k | 0 <= k < |pats| :: pats[k] != ""
    ensures output[0].None?
  {
  }

  /** An output that ends at position `i` is a registered pattern occurring in the sample. */
  lemma HitOccurs(t: Trie, output: seq<Option<nat>>, pats: seq<string>, sample: string, i: nat)
    requires Shape(t) && OutputsOk(t, output, pats) && i <= |sample|
    requires !NoOutputEndsAt(t, output, Split(sample)[..i])
    ensures SomeOccurs(pats, sample)
  {
    var s :| 0 <= s < |t.labels| && output[s].Some? && IsSuffix(t.paths[s], Split(sample)[..i]);
    var p := pats[output[s].value];
    SuffixOccurs(t.paths[s], Split(sample), i);
    SplitReflects(p, sample, i - |p|);
    assert Occurs(pats[output[s].value], sample);
  }

  /** Outputs end somewhere in the sample exactly when some registered pattern occurs in it. */
  lemma CleanIffNone(t: Trie, output: seq<Option<nat>>, pats: seq<string>, sample: string)
    requires Shape(t) && OutputsOk(t, output, pats)
    ensures Clean(t, output, Split(sample), |sample|) <==> !SomeOccurs(pats, sample)
  {
    if Clean(t, output, Split(sample), |sample|) {
      forall k, i: nat | 0 <= k < |pats| ensures !OccursAt(pats[k], sample, i) {
        MissOne(t, output, pats, sample, k, i);
      }
    } else {
      var j :| 0 <= j <= |sample| && !NoOutputEndsAt(t, output, Split(sample)[..j]);
      HitOccurs(t, output, pats, sample, j);
    }
  }

  lemma MissOne(t: Trie, output: seq<Option<nat>>, pats: seq<string>, sample: string, k: nat, i: nat)
    requires Shape(t) && OutputsOk(t, output, pats) && Clean(t, output, Split(sample), |sample|) && k < |pats|
    ensures !OccursAt(pats[k], sample, i)
  {
    var p := pats[k];
    var j := i + |p|;
    if j <= |sample| {
      assert Spelled(t, output, pats[k]);
      var s: nat :| Spells(t, output, p, s);
      SplitReflects(p, sample, i);
      if OccursAt(p, sample, i) {
        OccursSuffix(t.paths[s], Split(sample), j);
      }
    }
  }

  // ---------------------------------------------------------------- the whole protocol

  /** Exactly the non-empty ones among `pats` are registered. */
  ghost predicate RegisteredFrom(registered: seq<string>, pats: seq<string>) {
    forall p {:trigger p in registered} :: p in registered <==> p != "" && p in pats
  }

  lemma RegisterOne(registered: seq<string>, pats: seq<string>, p: string)
    requires RegisteredFrom(registered, pats)
    ensures RegisteredFrom(if p == "" || p in registered then registered else registered + [p], pats + [p])
  {
  }

  lemma SameAnswer(registered: seq<string>, pats: seq<string>, sample: string)
    requires RegisteredFrom(registered, pats)
    ensures SomeOccurs(registered, sample) <==> exists k :: 0 <= k < |pats| && pats[k] != "" && Occurs(pats[k], sample)
  {
    if k :| 0 <= k < |pats| && pats[k] != "" && Occurs(pats[k], sample) {
      assert pats[k] in registered;
    }
    if j :| 0 <= j < |registered| && Occurs(registered[j], sample) {
      assert registered[j] in registered;
      assert registered[j] in pats;
    }
  }

  /** `new` and one `add` per pattern: every non-empty one is registered. */
  method Register(pats: seq<string>) returns (ac: AhoCorasick)
    ensures fresh(ac) && ac.Valid() && RegisteredFrom(ac.patterns, pats)
  {
    ac := new AhoCorasick();
    for i := 0 to |pats|
      invariant fresh(ac) && ac.Valid() && RegisteredFrom(ac.patterns, pats[..i])
    {
      RegisterOne(ac.patterns, pats[..i], pats[i]);
      ac.Add(pats[i]);
      assert pats[..i + 1] == pats[..i] + [pats[i]];
    }
    assert pats[..|pats|] == pats;
  }

  /** `new`, one `add` per pattern, `optimize`, `similar`: the answer is about every non-empty pattern given. */
  method MatchAny(pats: seq<string>, sample: string) returns (r: bool)
    ensures r <==> exists k :: 0 <= k < |pats| && pats[k] != "" && Occurs(pats[k], sample)
  {
    var ac := Register(pats);
    ac.Optimize();
    r := ac.Similar(sample);
    SameAnswer(ac.patterns, pats, sample);
  }
}
