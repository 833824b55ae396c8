/**
 The resumable substring walk `search_dfs` (crates/opsense-mlib/src/radix.rs) as a step machine:
 one step is one iteration of its outer loop, at whose boundaries a deadline may interrupt it.
 The matcher is arbitrary here.
 */
module RadixDfs {
  import opened Kmp
  import opened RadixSubtree
  import opened RadixTree
  import opened RadixWalk
  import opened Wrappers

  type Matcher = (seq<Elem>, seq<Elem>, nat) -> MatchResult

  datatype DfsFrame = DfsFrame(node: nat, pos: nat, cont: nat, child: nat)

  datatype DfsState =
    | Search(frames: seq<DfsFrame>)
    | Collect(root: nat, stack: seq<(nat, nat)>)

  datatype DfsCheckpoint = DfsCheckpoint(state: Option<DfsState>, records: seq<nat>)

  ghost predicate FramesIn(tr: Tree, frames: seq<DfsFrame>) {
    forall i | 0 <= i < |frames| :: frames[i].node in tr.nodes
  }

  ghost predicate EntriesIn(tr: Tree, stack: seq<(nat, nat)>) {
    forall i | 0 <= i < |stack| :: stack[i].0 in tr.nodes
  }

  ghost predicate StateIn(tr: Tree, st: Option<DfsState>) {
    match st
    case None => true
    case Some(Search(frames)) => FramesIn(tr, frames)
    case Some(Collect(_, stack)) => EntriesIn(tr, stack)
  }

  // ---------------------------------------------------------------- one step

  /** The next (continuation, child) pair, at or after the given one, whose child starts with the next element. */
  ghost function NextDescent(tr: Tree, pattern: seq<Elem>, conts: seq<nat>, children: seq<nat>, ci: nat,
                             chi: nat): (r: Option<(nat, nat)>)
    ensures r.Some? ==> ci <= r.value.0 < |conts| && r.value.1 < |children| && 0 < conts[r.value.0] < |pattern|
    ensures r.Some? ==> StartsWith(tr, children[r.value.1], pattern[conts[r.value.0]])
    decreases |conts| - ci, |children| - chi
  {
    if ci >= |conts| then None
    else if conts[ci] == 0 || conts[ci] >= |pattern|
      || chi >= |children| then NextDescent(tr, pattern, conts, children, ci + 1, 0)
    else if StartsWith(tr, children[chi], pattern[conts[ci]]) then Some((ci, chi))
    else NextDescent(tr, pattern, conts, children, ci, chi + 1)
  }

  ghost function Answer(tr: Tree, pattern: seq<Elem>, m: Matcher, f: DfsFrame): MatchResult
    requires f.node in tr.nodes
  {
    m(tr.nodes[f.node].prefix, pattern, f.pos)
  }

  ghost function Descent(tr: Tree, pattern: seq<Elem>, m: Matcher, f: DfsFrame): Option<(nat, nat)>
    requires f.node in tr.nodes
  {
    NextDescent(tr, pattern, Answer(tr, pattern, m, f).continuations, tr.nodes[f.node].children, f.cont, f.child)
  }

  /** The two frames that replace `f` when it descends at `at`. */
  ghost function Descended(tr: Tree, pattern: seq<Elem>, m: Matcher, f: DfsFrame, at: (nat, nat)): seq<DfsFrame>
    requires f.node in tr.nodes && at.0 < |Answer(tr, pattern, m, f).continuations|
             && at.1 < |tr.nodes[f.node].children|
  {
    [f.(cont := at.0, child := at.1 + 1),
     DfsFrame(tr.nodes[f.node].children[at.1], Answer(tr, pattern, m, f).continuations[at.0], 0, 0)]
  }

  /** A search step drops exhausted frames until one completes the pattern or descends. */
  ghost function SearchStep(tr: Tree, pattern: seq<Elem>, m: Matcher, frames: seq<DfsFrame>): (r: Option<DfsState>)
    requires WellFormed(tr) && FramesIn(tr, frames)
    ensures StateIn(tr, r)
    decreases |frames|
  {
    if frames == [] then None
    else
      var rest, f := frames[..|frames| - 1], frames[|frames| - 1];
      if Answer(tr, pattern, m, f).found then Some(Collect(f.node, [(f.node, 0)]))
      else
        match Descent(tr, pattern, m, f)
        case None => SearchStep(tr, pattern, m, rest)
        case Some(at) => Some(Search(rest + Descended(tr, pattern, m, f, at)))
  }

  ghost function Recorded(tr: Tree, n: nat): seq<nat>
    requires n in tr.nodes
  {
    if tr.nodes[n].record != EMPTY then [tr.nodes[n].record] else []
  }

  /** A collect step visits the top entry and goes on to its next child. */
  ghost function CollectStep(tr: Tree, stack: seq<(nat, nat)>): (r: seq<(nat, nat)>)
    requires WellFormed(tr) && stack != [] && EntriesIn(tr, stack)
    ensures EntriesIn(tr, r)
  {
    var rest, (n, ci) := stack[..|stack| - 1], stack[|stack| - 1];
    var cs := tr.nodes[n].children;
    if ci < |cs| then
      assert ChildrenOk(tr, n);
      rest + [(n, ci + 1), (cs[ci], 0)]
    else rest
  }

  ghost function Step(tr: Tree, pattern: seq<Elem>, m: Matcher, cp: DfsCheckpoint): (r: DfsCheckpoint)
    requires WellFormed(tr) && StateIn(tr, cp.state)
    ensures StateIn(tr, r.state)
  {
    match cp.state
    case None => cp
    case Some(Search(frames)) => DfsCheckpoint(SearchStep(tr, pattern, m, frames), cp.records)
    case Some(Collect(root, stack)) =>
      if stack == [] then DfsCheckpoint(None, cp.records)
      else DfsCheckpoint(Some(Collect(root, CollectStep(tr, stack))), cp.records + Recorded(tr, stack[|stack| - 1].0))
  }

  /** The checkpoint `k` steps later. */
  ghost function Run(tr: Tree, pattern: seq<Elem>, m: Matcher, cp: DfsCheckpoint, k: nat): (r: DfsCheckpoint)
    requires WellFormed(tr) && StateIn(tr, cp.state)
    ensures StateIn(tr, r.state)
    decreases k
  {
    if k == 0 then cp else Run(tr, pattern, m, Step(tr, pattern, m, cp), k - 1)
  }

  // ---------------------------------------------------------------- termination

  ghost function MaxLen(path: map<nat, seq<Elem>>): (d: nat)
    ensures forall n | n in path :: |path[n]| <= d
  {
    if path == map[] then 0
    else
      var n :| n in path;
      var rest := path - {n};
      var d := MaxLen(rest);
      assert forall x | x in path && x != n :: x in rest && rest[x] == path[x];
      if |path[n]| <= d then d else |path[n]|
  }

  /** How far below the deepest path a node lies. */
  ghost function Room(tr: Tree, n: nat): nat
    requires WellFormed(tr) && n in tr.nodes
  {
    MaxLen(tr.path) - |tr.path[n]|
  }

  ghost function Child(tr: Tree, n: nat, i: nat): (c: nat)
    requires WellFormed(tr) && n in tr.nodes && i < |tr.nodes[n].children|
    ensures c == tr.nodes[n].children[i] && c in tr.nodes && Room(tr, c) < Room(tr, n)
  {
    BelowChildDirect(tr, n, tr.nodes[n].children[i]);
    tr.nodes[n].children[i]
  }

  /** An upper bound on the steps that a frame can still cause. */
  ghost function FrameCost(tr: Tree, pattern: seq<Elem>, m: Matcher, f: DfsFrame): (c: nat)
    requires WellFormed(tr) && f.node in tr.nodes
    ensures c > 0
    decreases Room(tr, f.node), |Answer(tr, pattern, m, f).continuations| - f.cont,
              |tr.nodes[f.node].children| - f.child
  {
    var conts := Answer(tr, pattern, m, f).continuations;
    if f.cont >= |conts| then 1
    else if f.child >= |tr.nodes[f.node].children| then FrameCost(tr, pattern, m, f.(cont := f.cont + 1, child := 0))
    else
      var c := Child(tr, f.node, f.child);
      FrameCost(tr, pattern, m, DfsFrame(c, conts[f.cont], 0, 0)) + 1 + FrameCost(tr, pattern, m,
        f.(child := f.child + 1))
  }

  ghost function FramesCost(tr: Tree, pattern: seq<Elem>, m: Matcher, frames: seq<DfsFrame>): nat
    requires WellFormed(tr) && FramesIn(tr, frames)
  {
    if frames == [] then 0
    else FramesCost(tr, pattern, m, frames[..|frames| - 1]) + FrameCost(tr, pattern, m, frames[|frames| - 1])
  }

  ghost function EntryCost(tr: Tree, e: (nat, nat)): nat
    requires WellFormed(tr) && e.0 in tr.nodes
    decreases Room(tr, e.0), |tr.nodes[e.0].children| - e.1
  {
    if e.1 >= |tr.nodes[e.0].children| then 1
    else EntryCost(tr, (Child(tr, e.0, e.1), 0)) + 1 + EntryCost(tr, (e.0, e.1 + 1))
  }

  ghost function EntriesCost(tr: Tree, stack: seq<(nat, nat)>): nat
    requires WellFormed(tr) && EntriesIn(tr, stack)
  {
    if stack == [] then 0 else EntriesCost(tr, stack[..|stack| - 1]) + EntryCost(tr, stack[|stack| - 1])
  }

  lemma {:induction false} DescentCost(tr: Tree, pattern: seq<Elem>, m: Matcher, f: DfsFrame, at: (nat, nat))
    requires WellFormed(tr) && f.node in tr.nodes && Descent(tr, pattern, m, f) == Some(at)
    ensures Child(tr, f.node, at.1) in tr.nodes
    ensures FrameCost(tr, pattern, m, f.(cont := at.0, child := at.1 + 1))
            + FrameCost(tr, pattern, m,
                        DfsFrame(Child(tr, f.node, at.1), Answer(tr, pattern, m, f).continuations[at.0], 0, 0))
            < FrameCost(tr, pattern, m, f)
    decreases |Answer(tr, pattern, m, f).continuations| - f.cont, |tr.nodes[f.node].children| - f.child
  {
    var conts, cs := Answer(tr, pattern, m, f).continuations, tr.nodes[f.node].children;
    if conts[f.cont] == 0 || conts[f.cont] >= |pattern| || f.child >= |cs| {
      DescentCost(tr, pattern, m, f.(cont := f.cont + 1, child := 0), at);
      SkipCost(tr, pattern, m, f);
    } else if !StartsWith(tr, cs[f.child], pattern[conts[f.cont]]) {
      DescentCost(tr, pattern, m, f.(child := f.child + 1), at);
    }
  }

  /** Leaving a continuation early only loses cost. */
  lemma {:induction false} SkipCost(tr: Tree, pattern: seq<Elem>, m: Matcher, f: DfsFrame)
    requires WellFormed(tr) && f.node in tr.nodes && f.cont < |Answer(tr, pattern, m, f).continuations|
    ensures FrameCost(tr, pattern, m, f.(cont := f.cont + 1, child := 0)) <= FrameCost(tr, pattern, m, f)
    decreases |tr.nodes[f.node].children| - f.child
  {
    if f.child < |tr.nodes[f.node].children| {
      SkipCost(tr, pattern, m, f.(child := f.child + 1));
    }
  }

  lemma FramesCostPush(tr: Tree, pattern: seq<Elem>, m: Matcher, rest: seq<DfsFrame>, a: DfsFrame, b: DfsFrame)
    requires WellFormed(tr) && FramesIn(tr, rest + [a, b]) && FramesIn(tr, rest) && a.node in tr.nodes
             && b.node in tr.nodes
    ensures FramesCost(tr, pattern, m, rest + [a, b]) ==
            FramesCost(tr, pattern, m, rest) + FrameCost(tr, pattern, m, a) + FrameCost(tr, pattern, m, b)
  {
    var all := rest + [a, b];
    assert all[..|all| - 1] == rest + [a] && (rest + [a])[..|rest|] == rest;
  }

  lemma {:induction false} SearchStepCost(tr: Tree, pattern: seq<Elem>, m: Matcher, frames: seq<DfsFrame>)
    requires WellFormed(tr) && FramesIn(tr, frames)
    ensures var r := SearchStep(tr, pattern, m, frames);
            r.Some? && r.value.Search? ==>
                FramesCost(tr, pattern, m, r.value.frames) < FramesCost(tr, pattern, m, frames)
    decreases |frames|
  {
    if frames != [] {
      var rest, f := frames[..|frames| - 1], frames[|frames| - 1];
      if !Answer(tr, pattern, m, f).found {
        match Descent(tr, pattern, m, f)
        case None => SearchStepCost(tr, pattern, m, rest);
        case Some(at) =>
          DescentCost(tr, pattern, m, f, at);
          var d := Descended(tr, pattern, m, f, at);
          FramesCostPush(tr, pattern, m, rest, d[0], d[1]);
      }
    }
  }

  lemma CollectStepCost(tr: Tree, stack: seq<(nat, nat)>)
    requires WellFormed(tr) && stack != [] && EntriesIn(tr, stack)
    ensures EntriesCost(tr, CollectStep(tr, stack)) < EntriesCost(tr, stack)
  {
    var rest, n, ci := stack[..|stack| - 1], stack[|stack| - 1].0, stack[|stack| - 1].1;
    if ci < |tr.nodes[n].children| {
      var c := Child(tr, n, ci);
      var all := rest + [(n, ci + 1), (c, 0)];
      assert all[..|all| - 1] == rest + [(n, ci + 1)] && (rest + [(n, ci + 1)])[..|rest|] == rest;
    }
  }

  ghost function Phase(cp: DfsCheckpoint): nat {
    match cp.state
    case None => 0
    case Some(Collect(_, _)) => 1
    case Some(Search(_)) => 2
  }

  ghost function Cost(tr: Tree, pattern: seq<Elem>, m: Matcher, cp: DfsCheckpoint): nat
    requires WellFormed(tr) && StateIn(tr, cp.state)
  {
    match cp.state
    case None => 0
    case Some(Collect(_, stack)) => EntriesCost(tr, stack)
    case Some(Search(frames)) => FramesCost(tr, pattern, m, frames)
  }

  /** Every step of an unfinished walk makes progress, whatever the matcher answers. */
  lemma StepDecreases(tr: Tree, pattern: seq<Elem>, m: Matcher, cp: DfsCheckpoint)
    requires WellFormed(tr) && StateIn(tr, cp.state) && cp.state.Some?
    ensures var next := Step(tr, pattern, m, cp);
            || Phase(next) < Phase(cp)
            || (Phase(next) == Phase(cp) && Cost(tr, pattern, m, next) < Cost(tr, pattern, m, cp))
  {
    match cp.state.value
    case Search(frames) => SearchStepCost(tr, pattern, m, frames);
    case Collect(_, stack) =>
      if stack != [] {
        CollectStepCost(tr, stack);
      }
  }

  /** The records of the uninterrupted walk from `cp`. */
  ghost function Finish(tr: Tree, pattern: seq<Elem>, m: Matcher, cp: DfsCheckpoint): seq<nat>
    requires WellFormed(tr) && StateIn(tr, cp.state)
    decreases Phase(cp), Cost(tr, pattern, m, cp)
  {
    if cp.state.None? then cp.records
    else
      StepDecreases(tr, pattern, m, cp);
      Finish(tr, pattern, m, Step(tr, pattern, m, cp))
  }

  // ---------------------------------------------------------------- interruption

  /** Stopping after any number of steps and resuming yields the records of the uninterrupted walk. */
  lemma {:induction false} ResumeAnywhere(tr: Tree, pattern: seq<Elem>, m: Matcher, cp: DfsCheckpoint, k: nat)
    requires WellFormed(tr) && StateIn(tr, cp.state)
    ensures Finish(tr, pattern, m, Run(tr, pattern, m, cp, k)) == Finish(tr, pattern, m, cp)
    decreases k
  {
    if k > 0 {
      ResumeAnywhere(tr, pattern, m, Step(tr, pattern, m, cp), k - 1);
    }
  }

  /** A walk interrupted once for every budget in `budgets`, each time resumed from its checkpoint. */
  ghost function Interrupted(tr: Tree, pattern: seq<Elem>, m: Matcher, cp: DfsCheckpoint,
                             budgets: seq<nat>): (r: DfsCheckpoint)
    requires WellFormed(tr) && StateIn(tr, cp.state)
    ensures StateIn(tr, r.state)
    decreases |budgets|
  {
    if budgets == [] then cp else Interrupted(tr, pattern, m, Run(tr, pattern, m, cp, budgets[0]), budgets[1..])
  }

  lemma {:induction false} ResumeManyTimes(tr: Tree, pattern: seq<Elem>, m: Matcher, cp: DfsCheckpoint,
                                           budgets: seq<nat>)
    requires WellFormed(tr) && StateIn(tr, cp.state)
    ensures Finish(tr, pattern, m, Interrupted(tr, pattern, m, cp, budgets)) == Finish(tr, pattern, m, cp)
    decreases |budgets|
  {
    if budgets != [] {
      ResumeAnywhere(tr, pattern, m, cp, budgets[0]);
      ResumeManyTimes(tr, pattern, m, Run(tr, pattern, m, cp, budgets[0]), budgets[1..]);
    }
  }

  /** A finished walk is reached after finitely many steps. */
  lemma {:induction false} Terminates(tr: Tree, pattern: seq<Elem>, m: Matcher, cp: DfsCheckpoint) returns (k: nat)
    requires WellFormed(tr) && StateIn(tr, cp.state)
    ensures Run(tr, pattern, m, cp, k) == DfsCheckpoint(None, Finish(tr, pattern, m, cp))
    decreases Phase(cp), Cost(tr, pattern, m, cp)
  {
    if cp.state.None? {
      k := 0;
    } else {
      StepDecreases(tr, pattern, m, cp);
      k := Terminates(tr, pattern, m, Step(tr, pattern, m, cp));
      k := k + 1;
    }
  }
}
