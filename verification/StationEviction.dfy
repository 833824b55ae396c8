/**
 The blocks of the station of crates/opsense-core/src/station.rs when the cache is full: which block goes for a new
 one, what a batch leaves, and what a query then answers.
 */
module StationEviction {
  import opened LruArena
  import opened LruRuns
  import opened LruView
  import opened Observations
  import opened StationBlocks
  import opened StationLog
  import opened StationTidy
  import opened Wrappers

  type Cache = View<int, Block>

  // ---------------------------------------------------------------- the cache after a batch or a query

  ghost function ReadOne(cfg: Config<int>, a: Cache, b: int): (r: Cache)
    requires |a.order| == cfg.shards > 0
    ensures |r.order| == cfg.shards && r.vals == a.vals
  {
    Step(cfg, a, Get(b))
  }

  ghost function StoreOne(cfg: Config<int>, a: Cache, b: int, block: Block): (r: Cache)
    requires |a.order| == cfg.shards > 0
    ensures |r.order| == cfg.shards
  {
    Step(cfg, a, Put(b, block))
  }

  /** The turn of block `b`: it is read, and stored unless it is new and empty. */
  ghost function IngestOne(cfg: Config<int>, a: Cache, batch: Batch, b: int, d: int): (r: Cache)
    requires |a.order| == cfg.shards > 0
    ensures |r.order| == cfg.shards
  {
    var read, block := ReadOne(cfg, a, b), NextBlock(a.vals, batch, b, d);
    if b in a.vals || block.items != [] then StoreOne(cfg, read, b, block) else read
  }

  /** The turns of the blocks from `start` up to `upto`. */
  ghost function IngestRun(cfg: Config<int>, a: Cache, batch: Batch, start: int, upto: int, d: int): (r: Cache)
    requires |a.order| == cfg.shards > 0
    ensures |r.order| == cfg.shards
    decreases upto - start
  {
    if upto <= start then a else IngestOne(cfg, IngestRun(cfg, a, batch, start, upto - 1, d), batch, upto - 1, d)
  }

  lemma NextTurn(cfg: Config<int>, a: Cache, batch: Batch, start: int, upto: int, d: int)
    requires |a.order| == cfg.shards > 0 && start < upto
    ensures IngestRun(cfg, a, batch, start, upto, d) ==
            IngestOne(cfg, IngestRun(cfg, a, batch, start, upto - 1, d), batch, upto - 1, d)
  {
  }

  lemma NoTurns(cfg: Config<int>, a: Cache, batch: Batch, start: int, end: int, d: int)
    requires |a.order| == cfg.shards > 0
    ensures IngestRun(cfg, a, batch, start, Max(start, end + 1), d) == IngestRun(cfg, a, batch, start, end + 1, d)
    ensures Reads(cfg, a, start, Max(start, end + 1)) == Reads(cfg, a, start, end + 1)
    ensures end + 1 == start ==> IngestRun(cfg, a, batch, start, start, d) == a
  {
  }

  /** The blocks from `start` up to `upto` are read. */
  ghost function Reads(cfg: Config<int>, a: Cache, start: int, upto: int): (r: Cache)
    requires |a.order| == cfg.shards > 0
    ensures |r.order| == cfg.shards && r.vals == a.vals
    decreases upto - start
  {
    if upto <= start then a else ReadOne(cfg, Reads(cfg, a, start, upto - 1), upto - 1)
  }

  /** `a` is a state of the cache: its shards list exactly the stored blocks, and there are not too many. */
  ghost predicate CacheState(cfg: Config<int>, a: Cache) {
    && |a.order| == cfg.shards > 0
    && forall u {:trigger UnfoldState(u)} | UnfoldState(u) :: Consistent(a, cfg.hash) && |a.vals.Keys| <= cfg.capacity
  }

  /** Always true: mentioning it makes the solver unfold `CacheState`. */
  ghost predicate UnfoldState(u: bool) {
    true
  }

  lemma StateSize(cfg: Config<int>, a: Cache)
    requires CacheState(cfg, a)
    ensures |a.vals.Keys| <= cfg.capacity
  {
    assert UnfoldState(true);
  }

  // ---------------------------------------------------------------- one turn

  /** Always true: mentioning it makes the solver unfold `NoRecords`. */
  ghost predicate UnfoldRecords(u: bool) {
    true
  }

  /** The batch has no records for block `b`. */
  ghost predicate NoRecords(batch: Batch, b: int, d: int) {
    forall u {:trigger UnfoldRecords(u)} | UnfoldRecords(u) :: Of(batch.records, b, d) == []
  }

  /** Block `b` is there, or the batch has records for it. */
  ghost predicate HasItems(a: Cache, batch: Batch, b: int, d: int) {
    b in a.vals || Of(batch.records, b, d) != []
  }

  lemma NewBlockEmpty(vals: map<int, Block>, batch: Batch, b: int, d: int)
    requires b !in vals
    ensures NextBlock(vals, batch, b, d).items == [] <==> Of(batch.records, b, d) == []
  {
    var part := Of(batch.records, b, d);
    assert ItemsOf(vals, b) + part == part;
    if part == [] {
      NormEmpty(part);
    } else {
      NormContains(part, Identity(part[|part| - 1]));
    }
  }

  /** The least recently used block of the lowest non-empty shard goes for block `b`. */
  ghost predicate Replaced(a: Cache, after: map<int, Block>, b: int, block: Block) {
    exists s :: Lowest(a.order, s) && Oldest(a.order, s) in a.vals
                && after == (a.vals - {Oldest(a.order, s)})[b := block]
  }

  /**
   A turn that stores its block: every other block stays as it is, unless the block is new and the cache full; then
   exactly one goes.
   */
  lemma TurnExactly(cfg: Config<int>, a: Cache, batch: Batch, b: int, d: int)
    requires CacheState(cfg, a)
    ensures var after, block := IngestOne(cfg, a, batch, b, d).vals, NextBlock(a.vals, batch, b, d);
            if !HasItems(a, batch, b, d) || cfg.capacity == 0 then after == a.vals
            else if b in a.vals || |a.vals.Keys| < cfg.capacity then after == a.vals[b := block]
            else Replaced(a, after, b, block)
  {
    assert UnfoldState(true);
    if b !in a.vals {
      NewBlockEmpty(a.vals, batch, b, d);
      if |a.vals.Keys| > 0 {
        VictimStored(cfg.hash, a);
      }
    }
  }

  lemma TurnState(cfg: Config<int>, a: Cache, batch: Batch, b: int, d: int)
    requires CacheState(cfg, a)
    ensures CacheState(cfg, IngestOne(cfg, a, batch, b, d))
  {
    var read, block := ReadOne(cfg, a, b), NextBlock(a.vals, batch, b, d);
    ReadState(cfg, a, b);
    if b in a.vals || block.items != [] {
      StoreState(cfg, read, b, block);
    }
  }

  /** The block whose turn it was is the most recently used of its shard. */
  lemma TurnRecent(cfg: Config<int>, a: Cache, batch: Batch, b: int, d: int)
    requires CacheState(cfg, a) && HasItems(a, batch, b, d) && cfg.capacity > 0
    ensures var order := IngestOne(cfg, a, batch, b, d).order[ShardOf(cfg.hash, b, cfg.shards)];
            order != [] && order[0] == b
  {
    assert UnfoldState(true);
    if b !in a.vals {
      NewBlockEmpty(a.vals, batch, b, d);
    }
  }

  lemma ReadState(cfg: Config<int>, a: Cache, b: int)
    requires CacheState(cfg, a)
    ensures CacheState(cfg, ReadOne(cfg, a, b))
  {
    assert UnfoldState(true);
    StepConsistent(cfg, a, Get(b));
  }

  lemma StoreState(cfg: Config<int>, a: Cache, b: int, block: Block)
    requires CacheState(cfg, a)
    ensures CacheState(cfg, StoreOne(cfg, a, b, block))
  {
    assert UnfoldState(true);
    StepConsistent(cfg, a, Put(b, block));
    StepSize(cfg, a, Put(b, block));
  }

  lemma {:induction false} TurnsState(cfg: Config<int>, a: Cache, batch: Batch, start: int, upto: int, d: int)
    requires CacheState(cfg, a)
    ensures CacheState(cfg, IngestRun(cfg, a, batch, start, upto, d))
    decreases upto - start
  {
    if upto > start {
      TurnsState(cfg, a, batch, start, upto - 1, d);
      TurnState(cfg, IngestRun(cfg, a, batch, start, upto - 1, d), batch, upto - 1, d);
    }
  }

  // ---------------------------------------------------------------- a whole batch

  /** The turn of another block keeps block `b` or evicts it; the turn of one without records keeps it. */
  lemma TurnKeeps(cfg: Config<int>, a: Cache, batch: Batch, k: int, b: int, d: int)
    requires CacheState(cfg, a) && b != k
    ensures var after := IngestOne(cfg, a, batch, k, d).vals;
            && (b in after ==> b in a.vals && after[b] == a.vals[b])
            && (NoRecords(batch, k, d) && b in a.vals ==> b in after)
  {
    TurnExactly(cfg, a, batch, k, d);
    assert UnfoldRecords(true);
  }

  /** The turn of a block with records stores it. */
  lemma TurnStores(cfg: Config<int>, a: Cache, batch: Batch, b: int, d: int)
    requires CacheState(cfg, a) && !NoRecords(batch, b, d) && cfg.capacity > 0
    ensures var after := IngestOne(cfg, a, batch, b, d).vals;
            && b in after && after[b].lastUpdated == batch.now
            && after[b].items == Norm(ItemsOf(a.vals, b) + Of(batch.records, b, d))
  {
    assert UnfoldRecords(true);
    TurnExactly(cfg, a, batch, b, d);
  }

  /** The turns of other blocks keep block `b` or evict it; those of blocks without records keep it. */
  lemma {:induction false} OtherTurns(cfg: Config<int>, a: Cache, batch: Batch, start: int, upto: int, b: int, d: int)
    requires CacheState(cfg, a) && !(start <= b < upto)
    ensures var after := IngestRun(cfg, a, batch, start, upto, d).vals;
            && (b in after ==> b in a.vals && after[b] == a.vals[b])
            && ((forall k | start <= k < upto :: NoRecords(batch, k, d)) && b in a.vals ==> b in after)
    decreases upto - start
  {
    if upto > start {
      OtherTurns(cfg, a, batch, start, upto - 1, b, d);
      TurnsState(cfg, a, batch, start, upto - 1, d);
      TurnKeeps(cfg, IngestRun(cfg, a, batch, start, upto - 1, d), batch, upto - 1, b, d);
      NextTurn(cfg, a, batch, start, upto, d);
    }
  }

  /** After the turns up to `upto` block `b` is there, with this content. */
  ghost predicate Kept(cfg: Config<int>, a: Cache, batch: Batch, start: int, upto: int, b: int, block: Block, d: int)
    requires |a.order| == cfg.shards > 0
  {
    forall u {:trigger UnfoldRecords(u)} | UnfoldRecords(u) ::
      var vals := IngestRun(cfg, a, batch, start, upto, d).vals; b in vals && vals[b] == block
  }

  /** Without records nothing is evicted. */
  lemma {:induction false} AfterTurn(cfg: Config<int>, a: Cache, batch: Batch, start: int, from: int, upto: int, b: int,
                                     block: Block, d: int)
    requires CacheState(cfg, a) && start <= from <= upto && b < from
    requires forall k | from <= k < upto :: NoRecords(batch, k, d)
    requires Kept(cfg, a, batch, start, from, b, block, d)
    ensures Kept(cfg, a, batch, start, upto, b, block, d)
    decreases upto - from
  {
    if upto != from {
      AfterTurn(cfg, a, batch, start, from, upto - 1, b, block, d);
      KeptOnce(cfg, a, batch, start, upto, b, block, d);
    }
  }

  lemma KeptOnce(cfg: Config<int>, a: Cache, batch: Batch, start: int, upto: int, b: int, block: Block, d: int)
    requires CacheState(cfg, a) && start < upto && b < upto - 1 && NoRecords(batch, upto - 1, d)
    requires Kept(cfg, a, batch, start, upto - 1, b, block, d)
    ensures Kept(cfg, a, batch, start, upto, b, block, d)
  {
    assert UnfoldRecords(true);
    TurnsState(cfg, a, batch, start, upto - 1, d);
    TurnKeeps(cfg, IngestRun(cfg, a, batch, start, upto - 1, d), batch, upto - 1, b, d);
    NextTurn(cfg, a, batch, start, upto, d);
  }

  lemma OwnTurn(cfg: Config<int>, a: Cache, batch: Batch, start: int, b: int, d: int)
    requires CacheState(cfg, a) && start <= b && cfg.capacity > 0 && !NoRecords(batch, b, d)
    ensures var after := IngestRun(cfg, a, batch, start, b + 1, d).vals;
            && b in after && after[b].lastUpdated == batch.now
            && after[b].items == Norm(ItemsOf(IngestRun(cfg, a, batch, start, b, d).vals, b) + Of(batch.records, b, d))
  {
    TurnsState(cfg, a, batch, start, b, d);
    TurnStores(cfg, IngestRun(cfg, a, batch, start, b, d), batch, b, d);
    NextTurn(cfg, a, batch, start, b + 1, d);
  }

  /**
   The last block of the window for which a batch has records is in the cache afterwards, whatever had to go: with
   its records, and with what it had before unless an earlier block of the same batch has just evicted it.
   */
  lemma LastKept(cfg: Config<int>, a: Cache, batch: Batch, start: int, end: int, b: int, d: int)
    requires CacheState(cfg, a) && start <= b <= end && cfg.capacity > 0 && !NoRecords(batch, b, d)
    requires forall k | b < k <= end :: NoRecords(batch, k, d)
    ensures var at := IngestRun(cfg, a, batch, start, b, d).vals;
            var after := IngestRun(cfg, a, batch, start, end + 1, d).vals;
            && b in after && after[b].lastUpdated == batch.now
            && after[b].items == Norm((if b in at then ItemsOf(a.vals, b) else []) + Of(batch.records, b, d))
            && (b in at ==> b in a.vals)
            && ((forall k | start <= k < b :: NoRecords(batch, k, d)) ==> (b in at <==> b in a.vals))
  {
    OtherTurns(cfg, a, batch, start, b, b, d);
    OwnTurn(cfg, a, batch, start, b, d);
    var block := IngestRun(cfg, a, batch, start, b + 1, d).vals[b];
    AfterTurn(cfg, a, batch, start, b + 1, end + 1, b, block, d);
    assert UnfoldRecords(true);
  }

  // ---------------------------------------------------------------- queries over the blocks present

  /** The items of the blocks from `start` up to `upto` that are present, in order. */
  ghost function Present(vals: map<int, Block>, start: int, upto: int): seq<Observation>
    decreases upto - start
  {
    if upto <= start then [] else Present(vals, start, upto - 1) + ItemsOf(vals, upto - 1)
  }

  /** The part of a block inside the window and the block is its part inside the window. */
  lemma ClipWindow(vals: map<int, Block>, log: seq<Observation>, b: int, from: int, to: int, d: int)
    requires AllTidy(vals, log, d)
    ensures Window(ItemsOf(vals, b), Max(from, BlockStart(b, d)), Min(to, BlockEnd(b, d))) ==
            Window(ItemsOf(vals, b), from, to)
  {
    assert b in vals ==> TidyBlock(vals, log, b, d);
    SameWindow(ItemsOf(vals, b), from, to, BlockStart(b, d), BlockEnd(b, d));
  }

  lemma {:induction false} SameWindow(s: seq<Observation>, from: int, to: int, lo: int, hi: int)
    requires forall o | o in s :: lo <= o.ts <= hi
    ensures Window(s, Max(from, lo), Min(to, hi)) == Window(s, from, to)
    decreases |s|
  {
    if s != [] {
      var front, last := Split(s);
      assert last in s && forall o | o in front :: o in s;
      SameWindow(front, from, to, lo, hi);
      WindowSnoc(front, last, from, to);
      WindowSnoc(front, last, Max(from, lo), Min(to, hi));
    }
  }

  /** One more block. */
  lemma PresentNext(vals: map<int, Block>, log: seq<Observation>, start: int, b: int, from: int, to: int, d: int)
    requires AllTidy(vals, log, d) && start <= b
    ensures Window(Present(vals, start, b + 1), from, to) ==
            Window(Present(vals, start, b), from, to)
            + Window(ItemsOf(vals, b), Max(from, BlockStart(b, d)), Min(to, BlockEnd(b, d)))
  {
    ClipWindow(vals, log, b, from, to, d);
    WindowAppend(Present(vals, start, b), ItemsOf(vals, b), from, to);
  }

  /** In the window of one block the answer is that block. */
  lemma {:induction false} WindowOfBlock(vals: map<int, Block>, log: seq<Observation>, start: int, upto: int, b: int,
                                         d: int)
    requires d > 0 && AllTidy(vals, log, d)
    ensures Window(Present(vals, start, upto), BlockStart(b, d), BlockEnd(b, d)) ==
            if start <= b < upto then ItemsOf(vals, b) else []
    decreases upto - start
  {
    var lo, hi := BlockStart(b, d), BlockEnd(b, d);
    if upto > start {
      var k := upto - 1;
      WindowOfBlock(vals, log, start, k, b, d);
      WindowAppend(Present(vals, start, k), ItemsOf(vals, k), lo, hi);
      assert k in vals ==> TidyBlock(vals, log, k, d);
      if k == b {
        WholeWindow(ItemsOf(vals, k), lo, hi);
      } else {
        forall o | o in ItemsOf(vals, k) ensures !(lo <= o.ts <= hi) {
          InBlock(o.ts, k, d);
          InBlock(o.ts, b, d);
        }
        WindowSome(ItemsOf(vals, k), lo, hi);
      }
    }
  }

  lemma {:induction false} WholeWindow(s: seq<Observation>, lo: int, hi: int)
    requires forall o | o in s :: lo <= o.ts <= hi
    ensures Window(s, lo, hi) == s
    decreases |s|
  {
    if s != [] {
      var front, last := Split(s);
      assert last in s && forall o | o in front :: o in s;
      WholeWindow(front, lo, hi);
      WindowSnoc(front, last, lo, hi);
    }
  }

  /** The blocks that a query for exactly block `b` visits. */
  lemma VisitsBlock(b: int, d: int)
    requires d > 0
    ensures BlockId(BlockStart(b, d), d) == b <= BlockId(BlockEnd(b, d), d) <= b + 1
  {
    var to := BlockEnd(b, d);
    Multiples(b, b, d);
    InBlock(BlockStart(b, d), b, d);
    InBlock(to, b, d);
    BlockIdBounds(to, d);
    MultipleId(b, d);
    if to < 0 {
      var k := (-to) / d;
      assert -to == k * d + (-to) % d && (-k) * d == -(k * d);
      Multiples(b + 1, -k, d);
      Multiples(-k, b, d);
    }
  }

  lemma MultipleId(b: int, d: int)
    requires d > 0
    ensures BlockId(b * d, d) == b
  {
    Multiples(b, b, d);
    Multiples(-b, -b, d);
    assert (-b) * d == -(b * d);
    InBlock(b * d, b, d);
    InBlock(-(b * d), -b, d);
    if b > 0 {
      Multiples(0, b, d);
    } else {
      Multiples(b, 0, d);
    }
  }

  // ---------------------------------------------------------------- whole runs

  /** The cache after a run of batches, whatever had to be evicted. */
  ghost function CacheAfter(cfg: Config<int>, batches: seq<Batch>, d: int): (r: Cache)
    requires cfg.shards > 0 && d > 0
    ensures |r.order| == cfg.shards
  {
    if batches == [] then View(seq(cfg.shards, i => []), map[])
    else
      var batch := batches[|batches| - 1];
      IngestRun(cfg, CacheAfter(cfg, batches[..|batches| - 1], d), batch, BlockId(batch.from, d),
                BlockId(batch.to, d) + 1, d)
  }
}
