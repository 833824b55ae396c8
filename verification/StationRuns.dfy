/**
 Runs of the station of crates/opsense-core/src/station.rs on values: what its two queries answer
 after any sequence of batches, which windows lose nothing, and what ingesting a batch again changes.
 */
module StationRuns {
  import opened Observations
  import opened StationBlocks
  import opened StationLog
  import opened Wrappers

  /** The first block a query visits: not more than MAX_BLOCKS_PER_QUERY before the last. */
  function FirstBlock(from: int, to: int, d: int): int
    requires d > 0
  {
    if BlockId(to, d) - BlockId(from, d) + 1 > MAX_BLOCKS_PER_QUERY then BlockId(to, d) - MAX_BLOCKS_PER_QUERY + 1
    else BlockId(from, d)
  }

  /** A query visits the last 20000 blocks of its window, all of them if there are not more. */
  lemma VisitedBlocks(from: int, to: int, d: int, b: int)
    requires d > 0
    ensures FirstBlock(from, to, d) <= b <= BlockId(to, d) <==>
            BlockId(from, d) <= b <= BlockId(to, d) && BlockId(to, d) - b < 20_000
  {
  }

  /** `window_fits_block_cap`. */
  predicate FitsBlockCap(from: int, to: int, d: int)
    requires d > 0
  {
    BlockId(to, d) - BlockId(from, d) < MAX_BLOCKS_PER_QUERY
  }

  /** Block `b` is present and covers its part of `[from, to]`. */
  predicate Covers(vals: map<int, Block>, b: int, from: int, to: int, d: int) {
    b in vals && Max(from, BlockStart(b, d)) >= vals[b].from && Min(to, BlockEnd(b, d)) <= vals[b].to
  }

  /** All blocks from `start` up to `upto` cover their part. */
  ghost predicate CoversAll(vals: map<int, Block>, start: int, upto: int, from: int, to: int, d: int) {
    forall b | start <= b < upto :: Covers(vals, b, from, to, d)
  }

  // ---------------------------------------------------------------- what the answers mean

  /**
   The times that a query and an ingestion lose at the old end: blocks are counted by truncation, which skips a
   partial block below 0.
   */
  lemma FirstBlockReaches(from: int, to: int, d: int)
    requires d > 0 && from <= to
    ensures BlockStart(BlockId(from, d), d) <= from <==> from >= 0 || from % d == 0
    ensures BlockStart(FirstBlock(from, to, d), d) <= from <==>
              FitsBlockCap(from, to, d) && (from >= 0 || from % d == 0)
  {
    var s := BlockId(from, d);
    InBlock(from, from / d, d);
    BlockIdBounds(from, d);
    assert from == (from / d) * d + from % d;
    Multiples(from / d, s, d);
    Multiples(s, from / d, d);
    TruncatedMultiple(from, d);
    if !FitsBlockCap(from, to, d) {
      var f := FirstBlock(from, to, d);
      assert f > s >= from / d;
      Multiples(from / d, f, d);
    }
  }

  /** Below 0, truncation and rounding down agree exactly on the multiples. */
  lemma TruncatedMultiple(ts: int, d: int)
    requires d > 0
    ensures BlockId(ts, d) == ts / d <==> ts >= 0 || ts % d == 0
  {
    if ts < 0 {
      var k := (-ts) / d;
      assert -ts == k * d + (-ts) % d;
      assert ts == (ts / d) * d + ts % d;
      assert (-k) * d == -(k * d);
      Multiples(-k, ts / d, d);
      Multiples(ts / d, -k, d);
    }
  }

  ghost predicate AnswersWindow(log: seq<Observation>, from: int, to: int, d: int)
    requires d > 0
  {
    Window(Norm(log), Max(from, BlockStart(FirstBlock(from, to, d), d)), to) == Window(Norm(log), from, to)
  }

  /**
   `query_recent` answers with the window of the log, whatever the log, exactly when the window
   fits the block cap and starts at a time from 0 on or at a block border.
   */
  lemma QueryRecentExactly(from: int, to: int, d: int)
    requires d > 0 && from <= to
    ensures (forall log :: AnswersWindow(log, from, to, d)) <==>
              FitsBlockCap(from, to, d) && (from >= 0 || from % d == 0)
  {
    FirstBlockReaches(from, to, d);
    if BlockStart(FirstBlock(from, to, d), d) > from {
      var o := Observation(from, "", 0, 0, 0, None, map[]);
      var lo := Max(from, BlockStart(FirstBlock(from, to, d), d));
      NormOne(o);
      WindowOne(o, from, to);
      WindowOne(o, lo, to);
      assert !AnswersWindow([o], from, to, d);
    }
  }

  lemma WindowOne(o: Observation, lo: int, hi: int)
    ensures Window([o], lo, hi) == if lo <= o.ts <= hi then [o] else []
  {
    assert [] + [o] == [o];
    WindowSnoc([], o, lo, hi);
  }

  ghost predicate Inside(records: seq<Observation>, from: int, to: int) {
    Window(records, from, to) == records
  }

  /**
   A batch inside its declared window is taken completely, whatever the batch, exactly when the window starts at
   a time from 0 on or at a block border.
   */
  lemma TakenExactly(from: int, to: int, d: int)
    requires d > 0 && from <= to
    ensures (forall records | Inside(records, from, to) :: Taken(records, from, to, d) == records) <==>
              from >= 0 || from % d == 0
  {
    FirstBlockReaches(from, to, d);
    BlockIdBounds(to, d);
    var lo, hi := BlockStart(BlockId(from, d), d), BlockEnd(BlockId(to, d), d);
    if lo > from {
      var o := Observation(from, "", 0, 0, 0, None, map[]);
      WindowOne(o, from, to);
      WindowOne(o, lo, hi);
      assert Inside([o], from, to) && Taken([o], from, to, d) != [o];
    } else {
      forall records | Inside(records, from, to) ensures Taken(records, from, to, d) == records {
        WindowWindow(records, from, to, lo, hi);
      }
    }
  }

  /** For example, an observation one second before 0 is lost. */
  lemma NegativeTimeLost(o: Observation)
    requires o.ts == -1
    ensures Inside([o], -1, -1) && Taken([o], -1, -1, 3600) == []
  {
    WindowOne(o, -1, -1);
    WindowOne(o, 0, 3599);
  }

  lemma {:induction false} AllAppended(log: seq<Observation>, batch: seq<Observation>, part: seq<Observation>)
    requires part <= batch
    ensures AllIn(log + batch, part)
  {
    if part != [] {
      var front, last := part[..|part| - 1], part[|part| - 1];
      AllAppended(log, batch, front);
      ContainsAt(log + batch, |log| + |front|);
    }
  }

  lemma {:induction false} ContainsAt(s: seq<Observation>, i: nat)
    requires i < |s|
    ensures Contains(s, Identity(s[i]))
  {
    if i < |s| - 1 {
      ContainsAt(s[..|s| - 1], i);
    }
  }

  // ---------------------------------------------------------------- whole runs

  /** Declared properly: the records lie in the window, which starts at a time from 0 on. */
  ghost predicate Proper(batch: Batch) {
    0 <= batch.from <= batch.to && Inside(batch.records, batch.from, batch.to)
  }

  ghost function History(batches: seq<Batch>): seq<Observation> {
    if batches == [] then [] else History(batches[..|batches| - 1]) + batches[|batches| - 1].records
  }

  /** What a station with blocks of `d` seconds takes from the batches. */
  ghost function TakenHistory(batches: seq<Batch>, d: int): seq<Observation>
    requires d > 0
  {
    if batches == [] then []
    else
      var batch := batches[|batches| - 1];
      TakenHistory(batches[..|batches| - 1], d) + Taken(batch.records, batch.from, batch.to, d)
  }

  /** Proper batches are taken completely. */
  lemma {:induction false} ProperHistory(batches: seq<Batch>, d: int)
    requires d > 0 && forall i | 0 <= i < |batches| :: Proper(batches[i])
    ensures TakenHistory(batches, d) == History(batches)
  {
    if batches != [] {
      ProperHistory(batches[..|batches| - 1], d);
      var batch := batches[|batches| - 1];
      TakenExactly(batch.from, batch.to, d);
    }
  }

  /** A query from 0 on that fits the block cap reaches its whole window. */
  lemma WholeWindow(s: seq<Observation>, from: int, to: int, d: int)
    requires d > 0 && from >= 0 && FitsBlockCap(from, to, d)
    ensures Window(s, Max(from, BlockStart(FirstBlock(from, to, d), d)), to) == Window(s, from, to)
    ensures Window(s, Max(from, BlockStart(BlockId(from, d), d)), to) == Window(s, from, to)
  {
    if from <= to {
      FirstBlockReaches(from, to, d);
    } else {
      EmptyWindow(s, from, to);
      EmptyWindow(s, Max(from, BlockStart(FirstBlock(from, to, d), d)), to);
      EmptyWindow(s, Max(from, BlockStart(BlockId(from, d), d)), to);
    }
  }

  // ---------------------------------------------------------------- the answers of a run

  /** The answer of `query_recent`. */
  ghost function RecentAnswer(log: seq<Observation>, from: int, to: int, d: int): seq<Observation>
    requires d > 0
  {
    Window(Norm(log), Max(from, BlockStart(FirstBlock(from, to, d), d)), to)
  }

  /** Every block that a strict query for `[from, to]` visits covers its part. */
  ghost predicate Answers(vals: map<int, Block>, from: int, to: int, d: int)
    requires d > 0
  {
    CoversAll(vals, BlockId(from, d), BlockId(to, d) + 1, from, to, d)
  }

  /** The answer of `query_range`. */
  ghost function StrictAnswer(vals: map<int, Block>, log: seq<Observation>, from: int, to: int,
                              d: int): Option<seq<Observation>>
    requires d > 0
  {
    if Answers(vals, from, to, d) then Some(Window(Norm(log), Max(from, BlockStart(BlockId(from, d), d)), to)) else None
  }

  /** The blocks after a run of batches without eviction. */
  ghost function BlocksAfter(batches: seq<Batch>, d: int): map<int, Block>
    requires d > 0
  {
    if batches == [] then map[] else AfterUpdate(BlocksAfter(batches[..|batches| - 1], d), batches[|batches| - 1], d)
  }

  /** No block has a negative upper end, because the default block starts with 0. */
  ghost predicate EndsOk(vals: map<int, Block>) {
    forall b | b in vals :: vals[b].to >= 0
  }

  lemma MirrorNothing(d: int)
    ensures Mirrors(map[], [], d)
  {
    forall b ensures Entry(map[], Of([], b, d), b) {
      assert Of([], b, d) == [];
    }
  }

  /** In every run the blocks agree with the log. */
  lemma {:induction false} RunMirrors(batches: seq<Batch>, d: int)
    requires d > 0
    ensures Mirrors(BlocksAfter(batches, d), TakenHistory(batches, d), d)
  {
    if batches == [] {
      MirrorNothing(d);
    } else {
      var front, batch := batches[..|batches| - 1], batches[|batches| - 1];
      RunMirrors(front, d);
      IngestAll(BlocksAfter(front, d), TakenHistory(front, d), batch, BlockId(batch.from, d), BlockId(batch.to, d), d);
    }
  }

  lemma {:induction false} RunEnds(batches: seq<Batch>, d: int)
    requires d > 0
    ensures EndsOk(BlocksAfter(batches, d))
  {
    if batches != [] {
      RunEnds(batches[..|batches| - 1], d);
    }
  }

  // ---------------------------------------------------------------- ingesting a batch again

  lemma {:induction false} ContainsMore(s: seq<Observation>, t: seq<Observation>, id: ObsIdentity)
    requires Contains(s, id)
    ensures Contains(s + t, id)
    decreases |t|
  {
    if t == [] {
      assert s + t == s;
    } else {
      var front, last := Split(t);
      ContainsMore(s, front, id);
      ContainsSnoc(s + front, last, id);
      Regroup(s, front, last);
    }
  }

  lemma {:induction false} AllInMore(s: seq<Observation>, more: seq<Observation>, t: seq<Observation>)
    requires AllIn(s, t)
    ensures AllIn(s + more, t)
  {
    if t != [] {
      AllInMore(s, more, t[..|t| - 1]);
      ContainsMore(s, more, Identity(t[|t| - 1]));
    }
  }

  /** What a batch of the run brought is in the history. */
  lemma {:induction false} TakenKnown(batches: seq<Batch>, i: nat, d: int)
    requires d > 0 && i < |batches|
    ensures var t := Taken(batches[i].records, batches[i].from, batches[i].to, d);
            AllIn(TakenHistory(batches, d), t) && forall o | o in t :: o in TakenHistory(batches, d)
  {
    var front, last := batches[..|batches| - 1], batches[|batches| - 1];
    var brought := Taken(last.records, last.from, last.to, d);
    if i == |front| {
      AllAppended(TakenHistory(front, d), brought, brought);
    } else {
      TakenKnown(front, i, d);
      AllInMore(TakenHistory(front, d), brought, Taken(batches[i].records, batches[i].from, batches[i].to, d));
    }
  }

  /** The run continued by its batch number `i`, fetched again at another time. */
  function Again(batches: seq<Batch>, i: nat, now: int): seq<Batch>
    requires i < |batches|
  {
    batches + [batches[i].(now := now)]
  }

  /**
   After any run, ingesting any of its batches again changes no answer of `query_recent`, and needs no more
   blocks.
   */
  lemma ReingestKeepsRecent(batches: seq<Batch>, i: nat, now: int, d: int)
    requires d > 0 && i < |batches|
    ensures var log, log' := TakenHistory(batches, d), TakenHistory(Again(batches, i, now), d);
            && Norm(log') == Norm(log) && BlocksOf(log', d) == BlocksOf(log, d)
            && forall from, to :: RecentAnswer(log', from, to, d) == RecentAnswer(log, from, to, d)
  {
    var log, t := TakenHistory(batches, d), Taken(batches[i].records, batches[i].from, batches[i].to, d);
    TakenKnown(batches, i, d);
    NormKnown(log, t);
    assert Again(batches, i, now)[..|batches|] == batches;
    assert forall o :: o in log + t <==> o in log;
  }

  // ---------------------------------------------------------------- again, and the strict query

  ghost predicate Spans(batch: Batch, b: int, d: int)
    requires d > 0
  {
    BlockId(batch.from, d) <= b <= BlockId(batch.to, d)
  }

  /** A batch all of whose blocks are there already. */
  ghost predicate Known(vals: map<int, Block>, batch: Batch, d: int)
    requires d > 0
  {
    forall b | Spans(batch, b, d) && Of(batch.records, b, d) != [] :: b in vals
  }

  /** The strict query answers the same windows as before. */
  ghost predicate SameStrict(vals: map<int, Block>, vals': map<int, Block>, d: int)
    requires d > 0
  {
    forall from, to :: Answers(vals, from, to, d) <==> Answers(vals', from, to, d)
  }

  /** Every block of the batch's window that is present covers its part of it already. */
  ghost predicate CoversBatch(vals: map<int, Block>, batch: Batch, d: int)
    requires d > 0
  {
    forall b | Spans(batch, b, d) && b in vals :: Covers(vals, b, batch.from, batch.to, d)
  }

  lemma KnownAt(vals: map<int, Block>, batch: Batch, b: int, d: int)
    requires d > 0 && Known(vals, batch, d)
    ensures b in AfterUpdate(vals, batch, d) <==> b in vals
    ensures b in vals ==>
              AfterUpdate(vals, batch, d)[b] == if Spans(batch, b, d) then NextBlock(vals, batch, b, d) else vals[b]
  {
    AfterAt(vals, batch, BlockId(batch.from, d), BlockId(batch.to, d) + 1, b, d);
  }

  /** A block that covers its part already keeps its range. */
  lemma CoveredKeepsRange(vals: map<int, Block>, batch: Batch, b: int, d: int, from: int, to: int)
    requires d > 0 && Known(vals, batch, d) && CoversBatch(vals, batch, d)
    ensures Covers(vals, b, from, to, d) <==> Covers(AfterUpdate(vals, batch, d), b, from, to, d)
  {
    KnownAt(vals, batch, b, d);
  }

  lemma BlockIdOfStart(b: int, d: int)
    requires d > 0
    ensures BlockId(BlockStart(b, d), d) == b
  {
    var ts := BlockStart(b, d);
    assert ts % d == 0 && ts / d == b by {
      Multiples(b, b, d);
      InBlock(ts, b, d);
      assert ts == (ts / d) * d + ts % d;
    }
    TruncatedMultiple(ts, d);
  }

  /** Where the part of a block begins, when the window reaches the block. */
  lemma PartBegins(from: int, b: int, d: int)
    requires d > 0 && BlockId(from, d) <= b
    ensures BlockId(Max(from, BlockStart(b, d)), d) == b && Max(from, BlockStart(b, d)) <= BlockEnd(b, d)
  {
    BlockIdOfStart(b, d);
    BlockIdBounds(from, d);
    StartsAscend(BlockId(from, d), b, d);
    Multiples(b, b, d);
    if from > BlockStart(b, d) {
      InBlock(from, b, d);
      assert from / d == b;
    }
  }

  /** Where the part of a block ends, past time 0. */
  lemma PartEnds(to: int, b: int, d: int)
    requires d > 0 && BlockId(to, d) >= b && Min(to, BlockEnd(b, d)) > 0
    ensures BlockId(Min(to, BlockEnd(b, d)), d) == b && BlockId(BlockEnd(b, d), d) == b
  {
    var e := BlockEnd(b, d);
    Multiples(b, b, d);
    InBlock(e, b, d);
    InBlock(to, to / d, d);
    StartsAscend(b, BlockId(to, d), d);
    InBlock(Min(to, e), b, d);
  }

  /** A query that visits one block only. */
  lemma OneBlock(vals: map<int, Block>, from: int, to: int, b: int, d: int)
    requires d > 0 && BlockId(from, d) == b == BlockId(to, d)
    ensures Answers(vals, from, to, d) <==> Covers(vals, b, from, to, d)
  {
  }

  /** A block whose range grows gives a strict query an answer that it did not have. */
  lemma GrownRangeAnswers(vals: map<int, Block>, batch: Batch, b: int, d: int) returns (from: int, to: int)
    requires d > 0 && Known(vals, batch, d) && EndsOk(vals)
    requires Spans(batch, b, d) && b in vals && !Covers(vals, b, batch.from, batch.to, d)
    ensures !Answers(vals, from, to, d) && Answers(AfterUpdate(vals, batch, d), from, to, d)
  {
    var vals' := AfterUpdate(vals, batch, d);
    var lo, hi := Max(batch.from, BlockStart(b, d)), Min(batch.to, BlockEnd(b, d));
    KnownAt(vals, batch, b, d);
    PartBegins(batch.from, b, d);
    BlockIdOfStart(b, d);
    Multiples(b, b, d);
    if lo < vals[b].from {
      from, to := lo, BlockStart(b, d);
      EndReached(vals, batch, b, d);
    } else {
      from, to := BlockEnd(b, d), hi;
      PartEnds(batch.to, b, d);
    }
    OneBlock(vals, from, to, b, d);
    OneBlock(vals', from, to, b, d);
  }

  /** The range of a block that the batch spans reaches its first time. */
  lemma EndReached(vals: map<int, Block>, batch: Batch, b: int, d: int)
    requires d > 0 && EndsOk(vals) && Spans(batch, b, d) && b in vals
    ensures BlockStart(b, d) <= NextBlock(vals, batch, b, d).to
  {
    Multiples(b, b, d);
    Multiples(b, 0, d);
    if b > 0 {
      Multiples(0, b, d);
      Multiples(b, BlockId(batch.to, d), d);
      InBlock(batch.to, batch.to / d, d);
    }
  }

  /**
   Ingesting a known batch changes no strict query if and only if every block of its window that is
   present covers its part already.
   */
  lemma KnownBatchStrictExactly(vals: map<int, Block>, batch: Batch, d: int)
    requires d > 0 && Known(vals, batch, d) && EndsOk(vals)
    ensures SameStrict(vals, AfterUpdate(vals, batch, d), d) <==> CoversBatch(vals, batch, d)
  {
    var vals' := AfterUpdate(vals, batch, d);
    if CoversBatch(vals, batch, d) {
      forall from, to ensures Answers(vals, from, to, d) <==> Answers(vals', from, to, d) {
        forall b ensures Covers(vals, b, from, to, d) <==> Covers(vals', b, from, to, d) {
          CoveredKeepsRange(vals, batch, b, d, from, to);
        }
      }
    } else {
      var b :| Spans(batch, b, d) && b in vals && !Covers(vals, b, batch.from, batch.to, d);
      var from, to := GrownRangeAnswers(vals, batch, b, d);
    }
  }

  lemma RunKnown(batches: seq<Batch>, i: nat, d: int)
    requires d > 0 && i < |batches|
    ensures Known(BlocksAfter(batches, d), batches[i], d)
  {
    var batch, log := batches[i], TakenHistory(batches, d);
    RunMirrors(batches, d);
    TakenKnown(batches, i, d);
    forall b | Spans(batch, b, d) && Of(batch.records, b, d) != [] ensures b in BlocksAfter(batches, d) {
      assert Entry(BlocksAfter(batches, d), Of(log, b, d), b);
      WindowSome(batch.records, BlockStart(b, d), BlockEnd(b, d));
      var o :| o in batch.records && BlockStart(b, d) <= o.ts <= BlockEnd(b, d);
      StartsAscend(BlockId(batch.from, d), b, d);
      StartsAscend(b, BlockId(batch.to, d), d);
      WindowMembers(batch.records, BlockStart(BlockId(batch.from, d), d), BlockEnd(BlockId(batch.to, d), d), o);
      WindowSome(log, BlockStart(b, d), BlockEnd(b, d));
    }
  }

  /**
   After any run, ingesting one of its batches again changes no strict query if and only if its present blocks
   cover their parts already.
   */
  lemma ReingestStrictExactly(batches: seq<Batch>, i: nat, now: int, d: int)
    requires d > 0 && i < |batches|
    ensures SameStrict(BlocksAfter(batches, d), BlocksAfter(Again(batches, i, now), d), d) <==>
            CoversBatch(BlocksAfter(batches, d), batches[i], d)
  {
    var again := batches[i].(now := now);
    RunEnds(batches, d);
    RunKnown(batches, i, d);
    assert Again(batches, i, now)[..|batches|] == batches;
    var vals := BlocksAfter(batches, d);
    assert Known(vals, again, d) && (CoversBatch(vals, again, d) <==> CoversBatch(vals, batches[i], d)) by {
      assert forall b :: Spans(again, b, d) <==> Spans(batches[i], b, d);
    }
    KnownBatchStrictExactly(vals, again, d);
  }

  // ---------------------------------------------------------------- when the strict query answers

  /**
   What a batch is for one block: whether its window reaches the block and it has records there, and the part it
   declares.
   */
  datatype Turn = Turn(spans: bool, brings: bool, from: int, to: int)

  ghost function TurnOf(batch: Batch, b: int, d: int): Turn
    requires d > 0
  {
    Turn(Spans(batch, b, d), Spans(batch, b, d) && Of(batch.records, b, d) != [],
         Max(batch.from, BlockStart(b, d)), Min(batch.to, BlockEnd(b, d)))
  }

  ghost function Turns(batches: seq<Batch>, b: int, d: int): (r: seq<Turn>)
    requires d > 0
    ensures |r| == |batches| && forall i | 0 <= i < |batches| :: r[i] == TurnOf(batches[i], b, d)
  {
    seq(|batches|, i requires 0 <= i < |batches| => TurnOf(batches[i], b, d))
  }

  /** The block was stored at turn `s`, the first that brings records. */
  ghost predicate StoredAt(turns: seq<Turn>, s: nat) {
    s < |turns| && turns[s].brings && forall j | 0 <= j < s :: !turns[j].brings
  }

  ghost predicate DeclaresFrom(turns: seq<Turn>, j: nat, t: int) {
    j < |turns| && turns[j].spans && turns[j].from <= t
  }

  ghost predicate DeclaresTo(turns: seq<Turn>, j: nat, t: int) {
    j < |turns| && turns[j].spans && t <= turns[j].to
  }

  /** Some turn since `s` declares the block from `t` on, or `t` is the largest 64-bit time. */
  ghost predicate FromReached(turns: seq<Turn>, s: nat, t: int) {
    t >= I64_MAX || exists j: nat :: s <= j && DeclaresFrom(turns, j, t)
  }

  /** Some turn since `s` declares the block up to `t`, or `t` is not after 0, where every range starts. */
  ghost predicate ToReached(turns: seq<Turn>, s: nat, t: int) {
    t <= 0 || exists j: nat :: s <= j && DeclaresTo(turns, j, t)
  }

  /** The block is stored, and `[lo, hi]` lies in the hull of what was declared for it since. */
  ghost predicate InHull(turns: seq<Turn>, lo: int, hi: int) {
    exists s: nat :: StoredAt(turns, s) && FromReached(turns, s, lo) && ToReached(turns, s, hi)
  }

  /** The range that the turns leave the block with; None while it is not stored. */
  ghost function RangeAfter(turns: seq<Turn>): Option<(int, int)> {
    if turns == [] then None
    else
      var last := turns[|turns| - 1];
      match RangeAfter(turns[..|turns| - 1])
      case None => if last.brings then Some((Min(I64_MAX, last.from), Max(0, last.to))) else None
      case Some((f, t)) => if last.spans then Some((Min(f, last.from), Max(t, last.to))) else Some((f, t))
  }

  /** One turn more. */
  lemma ReachedSnoc(turns: seq<Turn>, last: Turn, s: nat, t: int)
    requires s <= |turns|
    ensures FromReached(turns + [last], s, t) <==> FromReached(turns, s, t) || (last.spans && last.from <= t)
    ensures ToReached(turns + [last], s, t) <==> ToReached(turns, s, t) || (last.spans && t <= last.to)
  {
    var all := turns + [last];
    assert DeclaresFrom(all, |turns|, t) <==> last.spans && last.from <= t;
    assert DeclaresTo(all, |turns|, t) <==> last.spans && t <= last.to;
    assert forall j: nat | j < |turns| :: DeclaresFrom(all, j, t) <==> DeclaresFrom(turns, j, t);
    assert forall j: nat | j < |turns| :: DeclaresTo(all, j, t) <==> DeclaresTo(turns, j, t);
  }

  /** Until a turn brings records there is no range. */
  lemma {:induction false} NoneStored(turns: seq<Turn>)
    requires forall j | 0 <= j < |turns| :: !turns[j].brings
    ensures RangeAfter(turns) == None
  {
    if turns != [] {
      NoneStored(turns[..|turns| - 1]);
    }
  }

  /** The range of a stored block is the hull of what was declared since. */
  lemma {:induction false} RangeIsHull(turns: seq<Turn>, s: nat, t: int)
    requires StoredAt(turns, s) && forall j | 0 <= j < |turns| :: turns[j].brings ==> turns[j].spans
    ensures RangeAfter(turns).Some?
    ensures t >= RangeAfter(turns).value.0 <==> FromReached(turns, s, t)
    ensures t <= RangeAfter(turns).value.1 <==> ToReached(turns, s, t)
    decreases |turns|
  {
    var front, last := turns[..|turns| - 1], turns[|turns| - 1];
    assert turns == front + [last];
    ReachedSnoc(front, last, s, t);
    if s == |front| {
      NoneStored(front);
      assert !exists j: nat :: s <= j && (DeclaresFrom(front, j, t) || DeclaresTo(front, j, t));
    } else {
      RangeIsHull(front, s, t);
    }
  }

  lemma {:induction false} StoredSomewhere(turns: seq<Turn>) returns (s: nat)
    requires RangeAfter(turns).Some?
    ensures StoredAt(turns, s)
    decreases |turns|
  {
    var front := turns[..|turns| - 1];
    if RangeAfter(front).Some? {
      s := StoredSomewhere(front);
    } else {
      s := |front|;
      forall j | 0 <= j < s ensures !turns[j].brings {
        assert front[j] == turns[j];
        NotStoredYet(front, j);
      }
    }
  }

  lemma {:induction false} NotStoredYet(turns: seq<Turn>, j: nat)
    requires RangeAfter(turns).None? && j < |turns|
    ensures !turns[j].brings
  {
    if j < |turns| - 1 {
      NotStoredYet(turns[..|turns| - 1], j);
    }
  }

  /** The range decides which parts are covered. */
  lemma RangeCovers(turns: seq<Turn>, lo: int, hi: int)
    requires forall j | 0 <= j < |turns| :: turns[j].brings ==> turns[j].spans
    ensures InHull(turns, lo, hi) <==>
            RangeAfter(turns).Some? && lo >= RangeAfter(turns).value.0 && hi <= RangeAfter(turns).value.1
  {
    if RangeAfter(turns).Some? {
      var s := StoredSomewhere(turns);
      RangeIsHull(turns, s, lo);
      RangeIsHull(turns, s, hi);
      assert forall r: nat | StoredAt(turns, r) :: r == s;
    } else if InHull(turns, lo, hi) {
      var s: nat :| StoredAt(turns, s) && FromReached(turns, s, lo) && ToReached(turns, s, hi);
      RangeIsHull(turns, s, lo);
    }
  }

  /** The blocks of a run have the ranges of their turns. */
  lemma {:induction false} RangesOfRun(batches: seq<Batch>, b: int, d: int)
    requires d > 0
    ensures var vals, range := BlocksAfter(batches, d), RangeAfter(Turns(batches, b, d));
            (b in vals <==> range.Some?) && (b in vals ==> range == Some((vals[b].from, vals[b].to)))
    decreases |batches|
  {
    if batches != [] {
      var front, last := batches[..|batches| - 1], batches[|batches| - 1];
      RangesOfRun(front, b, d);
      var turns := Turns(batches, b, d);
      assert turns[..|turns| - 1] == Turns(front, b, d) && turns[|turns| - 1] == TurnOf(last, b, d);
      BlockTurn(BlocksAfter(front, d), last, b, d);
    }
  }

  /** One batch, for one block. */
  lemma BlockTurn(vals: map<int, Block>, batch: Batch, b: int, d: int)
    requires d > 0
    ensures var vals', turn := AfterUpdate(vals, batch, d), TurnOf(batch, b, d);
            && (b in vals' <==> b in vals || turn.brings)
            && (b in vals' && turn.spans && b in vals ==>
                  vals'[b].from == Min(vals[b].from, turn.from) && vals'[b].to == Max(vals[b].to, turn.to))
            && (b in vals' && turn.spans && b !in vals ==>
                  vals'[b].from == Min(I64_MAX, turn.from) && vals'[b].to == Max(0, turn.to))
            && (b in vals' && !turn.spans ==> b in vals && vals'[b] == vals[b])
  {
    AfterAt(vals, batch, BlockId(batch.from, d), BlockId(batch.to, d) + 1, b, d);
  }

  /** Block `b` is stored, and its part of `[from, to]` lies in the hull of what the batches declared for it since. */
  ghost predicate RunCovers(batches: seq<Batch>, b: int, from: int, to: int, d: int)
    requires d > 0
  {
    InHull(Turns(batches, b, d), Max(from, BlockStart(b, d)), Min(to, BlockEnd(b, d)))
  }

  /**
   In every run: a block covers its part of a window exactly when the declarations since it was stored reach both
   ends.
   */
  lemma CoversExactly(batches: seq<Batch>, b: int, from: int, to: int, d: int)
    requires d > 0
    ensures Covers(BlocksAfter(batches, d), b, from, to, d) <==> RunCovers(batches, b, from, to, d)
  {
    RangesOfRun(batches, b, d);
    RangeCovers(Turns(batches, b, d), Max(from, BlockStart(b, d)), Min(to, BlockEnd(b, d)));
  }

  /** In every run: the strict query answers exactly when every block it visits is so covered. */
  lemma AnswersExactly(batches: seq<Batch>, from: int, to: int, d: int)
    requires d > 0
    ensures Answers(BlocksAfter(batches, d), from, to, d) <==>
            forall b | BlockId(from, d) <= b <= BlockId(to, d) :: RunCovers(batches, b, from, to, d)
  {
    forall b ensures Covers(BlocksAfter(batches, d), b, from, to, d) <==> RunCovers(batches, b, from, to, d) {
      CoversExactly(batches, b, from, to, d);
    }
  }

  /** Two batches of one block with windows `[a, b]` and `[c, e]`. */
  function TwoBatches(p: seq<Observation>, a: int, b: int, q: seq<Observation>, c: int, e: int): seq<Batch> {
    [Batch(p, a, b, 0), Batch(q, c, e, 0)]
  }

  lemma TwoTurns(batches: seq<Batch>)
    requires forall i | 0 <= i < |batches| ::
               0 <= batches[i].from && batches[i].to < 1000 && batches[i].from <= batches[i].to
    ensures forall i | 0 <= i < |batches| ::
              Turns(batches, 0, 1000)[i] ==
              Turn(true, Window(batches[i].records, 0, 999) != [], batches[i].from, batches[i].to)
  {
  }

  /** A strict query inside the first thousand seconds, with blocks of that size. */
  lemma FirstBlockAnswers(batches: seq<Batch>, from: int, to: int)
    requires 0 <= from <= to < 1000
    ensures Answers(BlocksAfter(batches, 1000), from, to, 1000) <==> InHull(Turns(batches, 0, 1000), from, to)
  {
    AnswersExactly(batches, from, to, 1000);
    assert BlockId(from, 1000) == 0 == BlockId(to, 1000);
    assert RunCovers(batches, 0, from, to, 1000) <==> InHull(Turns(batches, 0, 1000), from, to);
  }

  /** The hull covers gaps: with windows `[0, 10]` and `[90, 100]` a strict query for `[0, 100]` is answered. */
  lemma GapAnswered(o: Observation, q: Observation)
    requires o.ts == 5 && q.ts == 95
    ensures Answers(BlocksAfter(TwoBatches([o], 0, 10, [q], 90, 100), 1000), 0, 100, 1000)
  {
    var batches := TwoBatches([o], 0, 10, [q], 90, 100);
    WindowOne(o, 0, 999);
    TwoTurns(batches);
    var turns := Turns(batches, 0, 1000);
    assert StoredAt(turns, 0) && DeclaresFrom(turns, 0, 0) && DeclaresTo(turns, 1, 100);
    FirstBlockAnswers(batches, 0, 100);
  }

  /**
   Ingesting a batch again can change a strict query: an empty batch for `[0, 100]` stores nothing;
   after a batch for `[50, 60]` has stored the block, the same empty batch widens its range.
   */
  lemma ReingestChangesStrict(o: Observation)
    requires o.ts == 55
    ensures var batches := TwoBatches([], 0, 100, [o], 50, 60);
            && !Answers(BlocksAfter(batches, 1000), 0, 100, 1000)
            && Answers(BlocksAfter(Again(batches, 0, 0), 1000), 0, 100, 1000)
  {
    var batches := TwoBatches([], 0, 100, [o], 50, 60);
    var again := Again(batches, 0, 0);
    WindowOne(o, 0, 999);
    TwoTurns(batches);
    TwoTurns(again);
    WidenedHull(Turn(true, false, 0, 100), Turn(true, true, 50, 60));
    assert Turns(batches, 0, 1000) == [Turn(true, false, 0, 100), Turn(true, true, 50, 60)];
    assert Turns(again, 0, 1000) == [Turn(true, false, 0, 100), Turn(true, true, 50, 60), Turn(true, false, 0, 100)];
    FirstBlockAnswers(batches, 0, 100);
    FirstBlockAnswers(again, 0, 100);
  }

  /** A window declared before the block was stored counts only when it is declared again. */
  lemma WidenedHull(wide: Turn, narrow: Turn)
    requires wide.spans && !wide.brings && narrow.brings && wide.from < narrow.from && wide.from < I64_MAX
    ensures !InHull([wide, narrow], wide.from, wide.to) && InHull([wide, narrow, wide], wide.from, wide.to)
  {
    var before, after := [wide, narrow], [wide, narrow, wide];
    forall s: nat | StoredAt(before, s) ensures !FromReached(before, s, wide.from) {
      assert s == 1;
    }
    assert StoredAt(after, 1) && DeclaresFrom(after, 2, wide.from) && DeclaresTo(after, 2, wide.to);
  }

  /**
   After proper batches, a query from 0 on within the block cap is answered with the window of the
   whole history, stably sorted and without repeated identities; a strict answer is the same.
   */
  lemma ProperAnswers(batches: seq<Batch>, from: int, to: int, d: int)
    requires d > 0 && from >= 0 && FitsBlockCap(from, to, d) && forall i | 0 <= i < |batches| :: Proper(batches[i])
    ensures var answer := Window(Norm(History(batches)), from, to);
            && RecentAnswer(TakenHistory(batches, d), from, to, d) == answer
            && StrictAnswer(BlocksAfter(batches, d), TakenHistory(batches, d), from, to, d) in {None, Some(answer)}
  {
    ProperHistory(batches, d);
    WholeWindow(Norm(History(batches)), from, to, d);
  }
}
