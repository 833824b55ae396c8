/**
 What the substring walk finds when it is driven by the Knuth-Morris-Pratt callback
 (crates/opsense-mlib/src/radix.rs, crates/opsense-mlib/src/search.rs): nothing, or exactly the
 records below one node whose path contains the pattern; and it finds something whenever an
 occurrence starts in the prefix of the node it began with.
 */
module RadixSearch {
  import opened Kmp
  import opened RadixDfs
  import opened RadixInsert
  import opened RadixSubtree
  import opened RadixTree
  import opened RadixWalk
  import opened Words
  import opened Wrappers

  /** The matcher closure built by `kmp_matcher`. */
  function KmpCallback(prefix: seq<Elem>, pattern: seq<Elem>, pos: nat): MatchResult {
    if pos < |pattern| then KmpResult(pattern, prefix, pos) else MatchResult(false, [])
  }

  /** `kmp_matcher`: the border table of the pattern, and the callback that uses it. */
  method AskKmpMatcher(pattern: seq<Elem>, prefix: seq<Elem>, pos: nat) returns (r: MatchResult)
    ensures r == KmpCallback(prefix, pattern, pos)
  {
    if pos >= |pattern| {
      return MatchResult(false, []);
    }
    var lps := Lps(pattern);
    r := KmpMatcher(pattern, lps, prefix, pos);
  }

  ghost predicate RecordOf(tr: Tree, m: nat, v: nat) {
    m in tr.nodes && tr.nodes[m].record == v != EMPTY
  }

  // ---------------------------------------------------------------- collecting

  /** The collection still has to visit `m` on account of entry `e`. */
  ghost predicate Ahead(tr: Tree, e: (nat, nat), m: nat)
    requires Domains(tr)
  {
    && e.0 in tr.nodes
    && (m == e.0 || exists j :: e.1 <= j < |tr.nodes[e.0].children| && Below(tr, tr.nodes[e.0].children[j], m))
  }

  ghost predicate AheadAny(tr: Tree, stack: seq<(nat, nat)>, m: nat)
    requires Domains(tr)
  {
    exists i :: 0 <= i < |stack| && Ahead(tr, stack[i], m)
  }

  lemma AheadIsBelow(tr: Tree, n: nat, m: nat)
    requires WellFormed(tr) && n in tr.nodes
    ensures Ahead(tr, (n, 0), m) <==> Below(tr, n, m)
  {
    if Below(tr, n, m) && m != n {
      var j := BelowChild(tr, n, m);
    }
    forall j | 0 <= j < |tr.nodes[n].children| && Below(tr, tr.nodes[n].children[j], m) ensures Below(tr, n, m) {
      BelowChildDirect(tr, n, tr.nodes[n].children[j]);
      BelowTrans(tr, n, tr.nodes[n].children[j], m);
    }
  }

  lemma CollectStepAhead(tr: Tree, stack: seq<(nat, nat)>, m: nat)
    requires WellFormed(tr) && stack != [] && EntriesIn(tr, stack)
    ensures AheadAny(tr, stack, m) <==> AheadAny(tr, CollectStep(tr, stack), m) || m == stack[|stack| - 1].0
  {
    var rest, n, ci := stack[..|stack| - 1], stack[|stack| - 1].0, stack[|stack| - 1].1;
    var cs, next := tr.nodes[n].children, CollectStep(tr, stack);
    assert forall i | 0 <= i < |rest| :: next[i] == rest[i] == stack[i];
    assert Ahead(tr, stack[|stack| - 1], n);
    if ci < |cs| {
      var c := Child(tr, n, ci);
      assert next[|rest|] == (n, ci + 1) && next[|rest| + 1] == (c, 0);
      AheadIsBelow(tr, c, m);
      assert Ahead(tr, (n, ci), m) <==> Ahead(tr, (n, ci + 1), m) || Ahead(tr, (c, 0), m);
      if AheadAny(tr, next, m) {
        var i :| 0 <= i < |next| && Ahead(tr, next[i], m);
        assert i >= |rest| ==> Ahead(tr, stack[|stack| - 1], m);
        assert i < |rest| ==> Ahead(tr, stack[i], m);
      }
      if AheadAny(tr, stack, m) {
        var i :| 0 <= i < |stack| && Ahead(tr, stack[i], m);
        assert i < |rest| ==> Ahead(tr, next[i], m);
        assert i == |rest| ==> Ahead(tr, next[|rest|], m) || Ahead(tr, next[|rest| + 1], m);
      }
    } else {
      if AheadAny(tr, next, m) {
        var i :| 0 <= i < |next| && Ahead(tr, next[i], m);
        assert Ahead(tr, stack[i], m);
      }
      if AheadAny(tr, stack, m) {
        var i :| 0 <= i < |stack| && Ahead(tr, stack[i], m);
        assert i < |rest| ==> Ahead(tr, next[i], m);
      }
    }
  }

  /** The value `v` is the record of a node still to be visited. */
  ghost predicate ComesUp(tr: Tree, stack: seq<(nat, nat)>, v: nat)
    requires Domains(tr)
  {
    exists m :: AheadAny(tr, stack, m) && RecordOf(tr, m, v)
  }

  lemma ComesUpStep(tr: Tree, stack: seq<(nat, nat)>, v: nat)
    requires WellFormed(tr) && stack != [] && EntriesIn(tr, stack)
    ensures ComesUp(tr, stack, v) <==> ComesUp(tr, CollectStep(tr, stack), v) || v in Recorded(tr, stack[|stack| - 1].0)
  {
    var n := stack[|stack| - 1].0;
    if ComesUp(tr, stack, v) {
      var m :| AheadAny(tr, stack, m) && RecordOf(tr, m, v);
      CollectStepAhead(tr, stack, m);
    }
    if ComesUp(tr, CollectStep(tr, stack), v) {
      var m :| AheadAny(tr, CollectStep(tr, stack), m) && RecordOf(tr, m, v);
      CollectStepAhead(tr, stack, m);
    }
    if v in Recorded(tr, n) {
      CollectStepAhead(tr, stack, n);
      assert RecordOf(tr, n, v);
    }
  }

  lemma {:induction false} CollectMeaning(tr: Tree, pattern: seq<Elem>, mt: Matcher, root: nat,
                                          stack: seq<(nat, nat)>, records: seq<nat>, v: nat)
    requires WellFormed(tr) && EntriesIn(tr, stack)
    ensures v in Finish(tr, pattern, mt, DfsCheckpoint(Some(Collect(root, stack)), records)) <==>
            v in records || ComesUp(tr, stack, v)
    decreases EntriesCost(tr, stack)
  {
    var cp := DfsCheckpoint(Some(Collect(root, stack)), records);
    if stack == [] {
      assert Finish(tr, pattern, mt, cp) == Finish(tr, pattern, mt, DfsCheckpoint(None, records));
    } else {
      CollectStepCost(tr, stack);
      ComesUpStep(tr, stack, v);
      CollectMeaning(tr, pattern, mt, root, CollectStep(tr, stack), records + Recorded(tr, stack[|stack| - 1].0), v);
    }
  }

  /** `v` is a record of the subtree of `n`. */
  ghost predicate RecordBelow(tr: Tree, n: nat, v: nat)
    requires Domains(tr)
  {
    exists m :: Below(tr, n, m) && RecordOf(tr, m, v)
  }

  lemma CollectsSubtree(tr: Tree, pattern: seq<Elem>, mt: Matcher, n: nat, v: nat)
    requires WellFormed(tr) && n in tr.nodes
    ensures v in Finish(tr, pattern, mt, DfsCheckpoint(Some(Collect(n, [(n, 0)])), [])) <==> RecordBelow(tr, n, v)
  {
    CollectMeaning(tr, pattern, mt, n, [(n, 0)], [], v);
    forall m ensures AheadAny(tr, [(n, 0)], m) <==> Below(tr, n, m) {
      AheadIsBelow(tr, n, m);
      assert Ahead(tr, [(n, 0)][0], m) ==> AheadAny(tr, [(n, 0)], m);
    }
  }

  /** Every subtree holds a record. */
  lemma {:induction false} SubtreeHasRecord(tr: Tree, n: nat) returns (m: nat)
    requires WellFormed(tr) && Full(tr) && n in tr.nodes
    ensures Below(tr, n, m) && tr.nodes[m].record != EMPTY
    decreases Room(tr, n)
  {
    if tr.nodes[n].record != EMPTY {
      m := n;
    } else {
      assert LeafOk(tr, n);
      var c := Child(tr, n, 0);
      BelowChildDirect(tr, n, c);
      m := SubtreeHasRecord(tr, c);
      BelowTrans(tr, n, c, m);
    }
  }

  // ---------------------------------------------------------------- soundness

  /** The part of the path of `n` that `n0` and the nodes after it have spelled. */
  ghost function Since(tr: Tree, n0: nat, n: nat): seq<Elem>
    requires WellFormed(tr) && Below(tr, n0, n)
  {
    StartBound(tr, n0);
    tr.path[n][Start(tr, n0)..]
  }

  /** The part spelled before the prefix of `n`. */
  ghost function Earlier(tr: Tree, n0: nat, n: nat): (r: seq<Elem>)
    requires WellFormed(tr) && Below(tr, n0, n)
    ensures r + tr.nodes[n].prefix == Since(tr, n0, n)
  {
    StartOrder(tr, n0, n);
    PathEnds(tr, n);
    var path, k := tr.path[n], Start(tr, n);
    assert path == path[..k] + path[k..];
    path[Start(tr, n0)..k]
  }

  lemma StartOrder(tr: Tree, n0: nat, n: nat)
    requires WellFormed(tr) && Below(tr, n0, n)
    ensures 0 <= Start(tr, n0) <= Start(tr, n) && (n != n0 ==> |tr.path[n0]| <= Start(tr, n))
  {
    StartBound(tr, n0);
    if n != n0 {
      BelowParent(tr, n0, n);
      StartBound(tr, n);
    }
  }

  lemma SinceChild(tr: Tree, n0: nat, n: nat, c: nat)
    requires WellFormed(tr) && Below(tr, n0, n) && c in tr.nodes[n].children
    ensures Below(tr, n0, c) && Earlier(tr, n0, c) == Since(tr, n0, n)
  {
    BelowChildDirect(tr, n, c);
    BelowTrans(tr, n0, n, c);
    StartBound(tr, c);
  }

  /** What was spelled since `n0` ends with the part of the pattern that the frame claims. */
  ghost predicate FrameSound(tr: Tree, pattern: seq<Elem>, n0: nat, f: DfsFrame)
    requires WellFormed(tr)
  {
    f.node in tr.nodes && Below(tr, n0, f.node) && f.pos < |pattern|
    && IsSuffix(pattern[..f.pos], Earlier(tr, n0, f.node))
  }

  ghost predicate FramesSound(tr: Tree, pattern: seq<Elem>, n0: nat, frames: seq<DfsFrame>)
    requires WellFormed(tr)
  {
    forall i | 0 <= i < |frames| :: FrameSound(tr, pattern, n0, frames[i])
  }

  /** A node below `n0` whose path contains the pattern, from `n0` on. */
  ghost predicate Match(tr: Tree, pattern: seq<Elem>, n0: nat, r: nat)
    requires WellFormed(tr)
  {
    Below(tr, n0, r) && Occurs(pattern, Since(tr, n0, r))
  }

  lemma FrameAnswer(tr: Tree, pattern: seq<Elem>, n0: nat, f: DfsFrame)
    requires WellFormed(tr) && FrameSound(tr, pattern, n0, f)
    ensures var a := Answer(tr, pattern, KmpCallback, f);
            && a == KmpResult(pattern, tr.nodes[f.node].prefix, f.pos)
            && (a.found ==> Match(tr, pattern, n0, f.node))
            && forall l: nat | l in a.continuations ::
                 0 < l < |pattern| && IsSuffix(pattern[..l], Since(tr, n0, f.node))
  {
    KmpSound(pattern, tr.nodes[f.node].prefix, f.pos, Earlier(tr, n0, f.node));
  }

  lemma DescendedSound(tr: Tree, pattern: seq<Elem>, n0: nat, f: DfsFrame, at: (nat, nat))
    requires WellFormed(tr) && FrameSound(tr, pattern, n0, f) && Descent(tr, pattern, KmpCallback, f) == Some(at)
    ensures FramesSound(tr, pattern, n0, Descended(tr, pattern, KmpCallback, f, at))
  {
    var c := Child(tr, f.node, at.1);
    FrameAnswer(tr, pattern, n0, f);
    SinceChild(tr, n0, f.node, c);
  }

  /** What a search step may lead to. */
  ghost predicate OutcomeSound(tr: Tree, pattern: seq<Elem>, n0: nat, st: Option<DfsState>)
    requires WellFormed(tr)
  {
    match st
    case None => true
    case Some(Search(frames)) => FramesSound(tr, pattern, n0, frames)
    case Some(Collect(r, stack)) => stack == [(r, 0)] && Match(tr, pattern, n0, r)
  }

  lemma {:induction false} SearchStepSound(tr: Tree, pattern: seq<Elem>, n0: nat, frames: seq<DfsFrame>)
    requires WellFormed(tr) && FramesIn(tr, frames) && FramesSound(tr, pattern, n0, frames)
    ensures OutcomeSound(tr, pattern, n0, SearchStep(tr, pattern, KmpCallback, frames))
    decreases |frames|
  {
    if frames != [] {
      var rest, f := frames[..|frames| - 1], frames[|frames| - 1];
      FrameAnswer(tr, pattern, n0, f);
      if !Answer(tr, pattern, KmpCallback, f).found {
        match Descent(tr, pattern, KmpCallback, f)
        case None => SearchStepSound(tr, pattern, n0, rest);
        case Some(at) => DescendedSound(tr, pattern, n0, f, at);
      }
    }
  }

  // ---------------------------------------------------------------- completeness

  /** An occurrence at position `q` that starts in the prefix of `n0` and ends in the prefix of `m`. */
  datatype Goal = Goal(q: nat, m: nat)

  ghost predicate GoalOk(tr: Tree, pattern: seq<Elem>, n0: nat, g: Goal)
    requires WellFormed(tr)
  {
    && pattern != [] && Below(tr, n0, g.m)
    && Start(tr, n0) <= g.q < |tr.path[n0]|
    && Start(tr, g.m) < g.q + |pattern| && OccursAt(pattern, tr.path[g.m], g.q)
  }

  /** `n` lies on the way to the goal, and `pos` elements of the occurrence precede it. */
  ghost predicate OnTheWay(tr: Tree, pattern: seq<Elem>, n0: nat, g: Goal, n: nat, pos: nat)
    requires WellFormed(tr)
  {
    && Below(tr, n0, n) && Below(tr, n, g.m)
    && (if n == n0 then pos == 0 else pos == Start(tr, n) - g.q && 0 < pos < |pattern|)
  }

  /** The pair at which the frame must descend to stay on the way. */
  ghost predicate WayOn(tr: Tree, pattern: seq<Elem>, g: Goal, n: nat, conts: seq<nat>, ci: nat, chi: nat)
    requires WellFormed(tr) && n in tr.nodes
  {
    && ci < |conts| && conts[ci] == |tr.path[n]| - g.q && 0 < conts[ci] < |pattern|
    && chi < |tr.nodes[n].children| && Below(tr, tr.nodes[n].children[chi], g.m)
  }

  ghost predicate NotPast(cont: nat, child: nat, ci: nat, chi: nat) {
    cont < ci || (cont == ci && child <= chi)
  }

  /** Processing the frame will complete the pattern, or it still has the way to the goal before it. */
  ghost predicate Carries(tr: Tree, pattern: seq<Elem>, n0: nat, g: Goal, f: DfsFrame)
    requires WellFormed(tr)
  {
    && f.node in tr.nodes && OnTheWay(tr, pattern, n0, g, f.node, f.pos)
    && (|| Answer(tr, pattern, KmpCallback, f).found
        || exists ci: nat, chi: nat ::
             NotPast(f.cont, f.child, ci, chi)
               && WayOn(tr, pattern, g, f.node, Answer(tr, pattern, KmpCallback, f).continuations, ci, chi))
  }

  /** An occurrence that starts in the last part of `path` lies in that part or runs out of it. */
  lemma Window(path: seq<Elem>, prefix: seq<Elem>, start: nat, whole: seq<Elem>, pattern: seq<Elem>, q: nat)
    requires start <= q < |path| && path[start..] == prefix && path <= whole && OccursAt(pattern, whole, q)
    ensures if q + |pattern| <= |path| then OccursAt(pattern, prefix, q - start)
            else IsSuffix(pattern[..|path| - q], prefix)
  {
    var i := q - start;
    if q + |pattern| <= |path| {
      assert prefix[i..i + |pattern|] == path[q..q + |pattern|] == whole[q..q + |pattern|];
    } else {
      var l := |path| - q;
      assert pattern[..l] == whole[q..q + |pattern|][..l] == path[q..] == prefix[i..];
      SuffixSlice(pattern[..l], prefix);
    }
  }

  /** The node at which the occurrence starts: the callback completes the pattern or offers the way on. */
  lemma WayFresh(tr: Tree, pattern: seq<Elem>, n0: nat, g: Goal)
    requires WellFormed(tr) && GoalOk(tr, pattern, n0, g)
    ensures var r := KmpResult(pattern, tr.nodes[n0].prefix, 0);
            if g.q + |pattern| <= |tr.path[n0]| then r.found
            else !r.found ==> |tr.path[n0]| - g.q in r.continuations
  {
    StartBound(tr, n0);
    assert tr.path[n0][Start(tr, n0)..] == tr.nodes[n0].prefix by { PathEnds(tr, n0); }
    Window(tr.path[n0], tr.nodes[n0].prefix, Start(tr, n0), tr.path[g.m], pattern, g.q);
    KmpFresh(pattern, tr.nodes[n0].prefix);
  }

  lemma WayLater(tr: Tree, pattern: seq<Elem>, n0: nat, g: Goal, n: nat, pos: nat)
    requires WellFormed(tr) && GoalOk(tr, pattern, n0, g) && OnTheWay(tr, pattern, n0, g, n, pos) && n != n0
    ensures var r := KmpResult(pattern, tr.nodes[n].prefix, pos);
            if g.q + |pattern| <= |tr.path[n]| then r.found else |tr.path[n]| - g.q in r.continuations
  {
    var prefix, path, whole := tr.nodes[n].prefix, tr.path[n], tr.path[g.m];
    PathEnds(tr, n);
    BelowParent(tr, n0, n);
    StartBound(tr, n);
    KmpAdvance(pattern, prefix, pos);
    assert path == whole[..|path|];
    var occ := whole[g.q..g.q + |pattern|];
    if g.q + |pattern| <= |path| {
      assert pattern[pos..] == occ[pos..] == path[g.q + pos..g.q + |pattern|] == prefix[..|pattern| - pos];
    } else {
      assert pattern[pos..pos + |prefix|] == occ[pos..pos + |prefix|] == path[Start(tr, n)..] == prefix;
    }
  }

  lemma FreshCarries(tr: Tree, pattern: seq<Elem>, n0: nat, g: Goal, n: nat, pos: nat)
    requires WellFormed(tr) && GoalOk(tr, pattern, n0, g) && OnTheWay(tr, pattern, n0, g, n, pos)
    ensures Carries(tr, pattern, n0, g, DfsFrame(n, pos, 0, 0))
  {
    var f := DfsFrame(n, pos, 0, 0);
    var r := Answer(tr, pattern, KmpCallback, f);
    if n == n0 {
      WayFresh(tr, pattern, n0, g);
    } else {
      WayLater(tr, pattern, n0, g, n, pos);
    }
    StartBound(tr, n);
    if !r.found {
      var ci :| 0 <= ci < |r.continuations| && r.continuations[ci] == |tr.path[n]| - g.q;
      var chi := BelowChild(tr, n, g.m);
      assert WayOn(tr, pattern, g, n, r.continuations, ci, chi);
      assert NotPast(0, 0, ci, chi);
    }
  }

  /** The scan for the next descent never jumps over a pair that qualifies. */
  lemma {:induction false} DescentBefore(tr: Tree, pattern: seq<Elem>, conts: seq<nat>, children: seq<nat>, cont: nat,
                                         child: nat, ci: nat, chi: nat)
    requires NotPast(cont, child, ci, chi) && ci < |conts| && chi < |children| && 0 < conts[ci] < |pattern|
    requires StartsWith(tr, children[chi], pattern[conts[ci]])
    ensures var at := NextDescent(tr, pattern, conts, children, cont, child);
            at.Some? && NotPast(at.value.0, at.value.1, ci, chi)
    decreases |conts| - cont, |children| - child
  {
    if conts[cont] == 0 || conts[cont] >= |pattern| || child >= |children| {
      DescentBefore(tr, pattern, conts, children, cont + 1, 0, ci, chi);
    } else if !StartsWith(tr, children[child], pattern[conts[cont]]) {
      DescentBefore(tr, pattern, conts, children, cont, child + 1, ci, chi);
    }
  }

  /** The child on the way starts with the next element of the pattern, and is itself on the way. */
  lemma WayChild(tr: Tree, pattern: seq<Elem>, n0: nat, g: Goal, n: nat, pos: nat, conts: seq<nat>, ci: nat, chi: nat)
    requires WellFormed(tr) && GoalOk(tr, pattern, n0, g) && OnTheWay(tr, pattern, n0, g, n, pos)
    requires WayOn(tr, pattern, g, n, conts, ci, chi)
    ensures StartsWith(tr, tr.nodes[n].children[chi], pattern[conts[ci]])
    ensures OnTheWay(tr, pattern, n0, g, tr.nodes[n].children[chi], conts[ci])
  {
    var c := Child(tr, n, chi);
    BelowChildDirect(tr, n, c);
    BelowTrans(tr, n0, n, c);
    ChildStart(tr, c);
    StartBound(tr, c);
    var k, whole := |tr.path[n]|, tr.path[g.m];
    assert tr.path[c][k] == whole[k] == whole[g.q..g.q + |pattern|][k - g.q];
    assert |tr.path[n0]| <= |tr.path[n]| < |tr.path[c]|;
  }

  /** A frame that carries the promise passes it on when it descends. */
  lemma DescendedCarries(tr: Tree, pattern: seq<Elem>, n0: nat, g: Goal, f: DfsFrame)
    requires WellFormed(tr) && GoalOk(tr, pattern, n0, g) && Carries(tr, pattern, n0, g, f)
    requires !Answer(tr, pattern, KmpCallback, f).found
    ensures Descent(tr, pattern, KmpCallback, f).Some?
    ensures var d := Descended(tr, pattern, KmpCallback, f, Descent(tr, pattern, KmpCallback, f).value);
            Carries(tr, pattern, n0, g, d[0]) || Carries(tr, pattern, n0, g, d[1])
  {
    var conts, cs := Answer(tr, pattern, KmpCallback, f).continuations, tr.nodes[f.node].children;
    var ci: nat, chi: nat :| NotPast(f.cont, f.child, ci, chi) && WayOn(tr, pattern, g, f.node, conts, ci, chi);
    WayChild(tr, pattern, n0, g, f.node, f.pos, conts, ci, chi);
    DescentBefore(tr, pattern, conts, cs, f.cont, f.child, ci, chi);
    var at := Descent(tr, pattern, KmpCallback, f).value;
    if at == (ci, chi) {
      FreshCarries(tr, pattern, n0, g, cs[chi], conts[ci]);
    } else {
      var f' := f.(cont := at.0, child := at.1 + 1);
      assert NotPast(f'.cont, f'.child, ci, chi) && Answer(tr, pattern, KmpCallback, f').continuations == conts;
      assert Carries(tr, pattern, n0, g, f');
    }
  }

  ghost predicate SomeCarries(tr: Tree, pattern: seq<Elem>, n0: nat, g: Goal, frames: seq<DfsFrame>)
    requires WellFormed(tr)
  {
    exists i :: 0 <= i < |frames| && Carries(tr, pattern, n0, g, frames[i])
  }

  lemma {:induction false} SearchStepPromise(tr: Tree, pattern: seq<Elem>, n0: nat, g: Goal, frames: seq<DfsFrame>)
    requires WellFormed(tr) && GoalOk(tr, pattern, n0, g) && FramesIn(tr, frames)
             && SomeCarries(tr, pattern, n0, g, frames)
    ensures var r := SearchStep(tr, pattern, KmpCallback, frames);
            r.Some? && (r.value.Search? ==> SomeCarries(tr, pattern, n0, g, r.value.frames))
    decreases |frames|
  {
    var rest, f := frames[..|frames| - 1], frames[|frames| - 1];
    if !Answer(tr, pattern, KmpCallback, f).found {
      var i :| 0 <= i < |frames| && Carries(tr, pattern, n0, g, frames[i]);
      if i == |rest| {
        DescendedCarries(tr, pattern, n0, g, f);
        var next := rest + Descended(tr, pattern, KmpCallback, f, Descent(tr, pattern, KmpCallback, f).value);
        assert Carries(tr, pattern, n0, g, next[|rest|]) || Carries(tr, pattern, n0, g, next[|rest| + 1]);
      } else {
        assert Carries(tr, pattern, n0, g, rest[i]);
        match Descent(tr, pattern, KmpCallback, f)
        case None => SearchStepPromise(tr, pattern, n0, g, rest);
        case Some(at) =>
          assert (rest + Descended(tr, pattern, KmpCallback, f, at))[i] == rest[i];
      }
    }
  }

  // ---------------------------------------------------------------- the outcome of a walk

  ghost function SearchFrom(frames: seq<DfsFrame>): DfsCheckpoint {
    DfsCheckpoint(Some(Search(frames)), [])
  }

  /** The walk ends without records, or in the collection of one matching subtree; with a goal, in the latter. */
  lemma {:induction false} SearchOutcome(tr: Tree, pattern: seq<Elem>, n0: nat, goal: Option<Goal>,
                                         frames: seq<DfsFrame>)
    returns (hit: Option<nat>)
    requires WellFormed(tr) && FramesIn(tr, frames) && FramesSound(tr, pattern, n0, frames)
    requires goal.Some? ==> GoalOk(tr, pattern, n0, goal.value) && SomeCarries(tr, pattern, n0, goal.value, frames)
    ensures goal.Some? ==> hit.Some?
    ensures hit.None? ==> Finish(tr, pattern, KmpCallback, SearchFrom(frames)) == []
    ensures hit.Some? ==> Match(tr, pattern, n0, hit.value)
    ensures hit.Some? ==> Finish(tr, pattern, KmpCallback, SearchFrom(frames)) ==
                          Finish(tr, pattern, KmpCallback,
                                 DfsCheckpoint(Some(Collect(hit.value, [(hit.value, 0)])), []))
    decreases FramesCost(tr, pattern, KmpCallback, frames)
  {
    SearchStepSound(tr, pattern, n0, frames);
    SearchStepCost(tr, pattern, KmpCallback, frames);
    if goal.Some? {
      SearchStepPromise(tr, pattern, n0, goal.value, frames);
    }
    match SearchStep(tr, pattern, KmpCallback, frames)
    case None => hit := None;
    case Some(Collect(r, stack)) => hit := Some(r);
    case Some(Search(next)) => hit := SearchOutcome(tr, pattern, n0, goal, next);
  }

  /** The records `search_dfs` returns when it starts at `n0` and is not interrupted. */
  ghost function DfsRecords(tr: Tree, pattern: seq<Elem>, n0: nat): seq<nat>
    requires WellFormed(tr) && n0 in tr.nodes
  {
    Finish(tr, pattern, KmpCallback, SearchFrom([DfsFrame(n0, 0, 0, 0)]))
  }

  lemma StartSound(tr: Tree, pattern: seq<Elem>, n0: nat)
    requires WellFormed(tr) && n0 in tr.nodes && pattern != []
    ensures FramesSound(tr, pattern, n0, [DfsFrame(n0, 0, 0, 0)])
  {
    EmptySuffix(Earlier(tr, n0, n0));
    assert pattern[..0] == [];
  }

  /**
   Soundness: every record returned belongs to a stored key that goes through `n0` and contains the pattern from
   there on.
   */
  lemma DfsSound(tr: Tree, c: map<seq<Elem>, nat>, pattern: seq<Elem>, n0: nat, v: nat) returns (key: seq<Elem>)
    requires Good(tr, c) && n0 in tr.nodes && pattern != [] && v in DfsRecords(tr, pattern, n0)
    ensures key in c && c[key] == v && tr.path[n0] <= key
    ensures 0 <= Start(tr, n0) && Occurs(pattern, key[Start(tr, n0)..])
  {
    StartSound(tr, pattern, n0);
    var hit := SearchOutcome(tr, pattern, n0, None, [DfsFrame(n0, 0, 0, 0)]);
    CollectsSubtree(tr, pattern, KmpCallback, hit.value, v);
    var m :| Below(tr, hit.value, m) && RecordOf(tr, m, v);
    assert Kept(tr, c, m);
    key := tr.path[m];
    BelowTrans(tr, n0, hit.value, m);
    StartBound(tr, n0);
    OccursExtends(pattern, Since(tr, n0, hit.value), key[Start(tr, n0)..]);
  }

  lemma OccursExtends<T>(pattern: seq<T>, a: seq<T>, b: seq<T>)
    requires Occurs(pattern, a) && a <= b
    ensures Occurs(pattern, b)
  {
    var i: nat :| OccursAt(pattern, a, i);
    assert b[i..i + |pattern|] == a[i..i + |pattern|];
    assert OccursAt(pattern, b, i);
  }

  /**
   Completeness up to the first hit: an occurrence that starts in the prefix of `n0` makes the walk return
   records.
   */
  lemma DfsFinds(tr: Tree, pattern: seq<Elem>, n0: nat, g: Goal)
    requires WellFormed(tr) && Full(tr) && GoalOk(tr, pattern, n0, g)
    ensures DfsRecords(tr, pattern, n0) != []
  {
    var frames := [DfsFrame(n0, 0, 0, 0)];
    StartSound(tr, pattern, n0);
    assert OnTheWay(tr, pattern, n0, g, n0, 0);
    FreshCarries(tr, pattern, n0, g, n0, 0);
    assert Carries(tr, pattern, n0, g, frames[0]);
    var hit := SearchOutcome(tr, pattern, n0, Some(g), frames);
    var m := SubtreeHasRecord(tr, hit.value);
    var v := tr.nodes[m].record;
    CollectsSubtree(tr, pattern, KmpCallback, hit.value, v);
    assert RecordOf(tr, m, v);
  }

  /** The nodes in whose prefixes an occurrence starts and ends. */
  lemma OccurrenceGoal(tr: Tree, pattern: seq<Elem>, holder: nat, q: nat) returns (n0: nat, g: Goal)
    requires WellFormed(tr) && pattern != [] && holder in tr.nodes && OccursAt(pattern, tr.path[holder], q)
    ensures GoalOk(tr, pattern, n0, g) && g.q == q && Owns(tr, n0, tr.path[holder][..q + 1])
  {
    var key := tr.path[holder];
    var first, whole := key[..q + 1], key[..q + |pattern|];
    n0 := PrefixOwned(tr, holder, first);
    var m := PrefixOwned(tr, holder, whole);
    PrefixOfPrefix(first, whole, tr.path[m]);
    PrefixIsSubtree(tr, first, n0, m);
    SamePart(key, tr.path[m], q, q + |pattern|);
    g := Goal(q, m);
  }

  lemma PrefixOfPrefix<T>(a: seq<T>, b: seq<T>, c: seq<T>)
    requires |b| <= |c| && c[..|b|] == b && a <= b
    ensures a <= c
  {
  }

  lemma SamePart<T>(a: seq<T>, b: seq<T>, i: nat, j: nat)
    requires i <= j <= |a| && j <= |b| && b[..j] == a[..j]
    ensures b[i..j] == a[i..j]
  {
    assert b[i..j] == b[..j][i..] && a[i..j] == a[..j][i..];
  }

  /** A stored key goes through `n`, and the pattern occurs in it from a position in the prefix of `n` on. */
  ghost predicate StartsIn(tr: Tree, c: map<seq<Elem>, nat>, pattern: seq<Elem>, n: nat, key: seq<Elem>, q: nat)
    requires Domains(tr)
  {
    && n in tr.nodes && key in c && tr.path[n] <= key
    && Start(tr, n) <= q < |tr.path[n]| && OccursAt(pattern, key, q)
  }

  /** Every occurrence in a stored key starts in the prefix of some node. */
  lemma OccurrenceStarts(tr: Tree, c: map<seq<Elem>, nat>, pattern: seq<Elem>, key: seq<Elem>)
    returns (n: nat, q: nat)
    requires Good(tr, c) && pattern != [] && key in c && Occurs(pattern, key)
    ensures StartsIn(tr, c, pattern, n, key, q)
  {
    var holder := HolderOf(tr, c, key);
    q :| OccursAt(pattern, key, q);
    n := PrefixOwned(tr, holder, key[..q + 1]);
    StartBound(tr, n);
  }

  /** That node carries the first element of the pattern, and the walk from it finds records. */
  lemma OccurrenceFound(tr: Tree, c: map<seq<Elem>, nat>, pattern: seq<Elem>, n: nat, key: seq<Elem>, q: nat)
    requires Good(tr, c) && pattern != [] && StartsIn(tr, c, pattern, n, key, q)
    ensures pattern[0] in tr.nodes[n].prefix && DfsRecords(tr, pattern, n) != []
  {
    var holder := HolderOf(tr, c, key);
    var n0, g := OccurrenceGoal(tr, pattern, holder, q);
    assert Owns(tr, n, key[..q + 1]);
    PathEnds(tr, n);
    assert tr.nodes[n].prefix[q - Start(tr, n)] == tr.path[n][q] == key[q..q + |pattern|][0];
    DfsFinds(tr, pattern, n, g);
  }
}
