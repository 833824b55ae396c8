/**
 The memory-only time-series station (crates/opsense-core/src/station.rs): blocks of observations in
 the shared-arena cache. `log` is the plain history it must agree with, as long as no block had
 to be evicted.
 */
module Station {
  import opened Lru
  import opened LruArena
  import opened LruList
  import LruRuns
  import opened LruSteps
  import opened LruView
  import opened Observations
  import opened StationBlocks
  import opened StationEviction
  import opened StationLog
  import opened StationRuns
  import opened StationTidy
  import opened Wrappers

  const STATION_SHARDS: nat := 32

  // ---------------------------------------------------------------- loops over observations

  /** Pushes the records of one block. */
  method PushRecords(items: seq<Observation>, records: seq<Observation>, lo: int, hi: int) returns (r: seq<Observation>)
    ensures r == items + Window(records, lo, hi)
  {
    r := items;
    for i := 0 to |records|
      invariant r == items + Window(records[..i], lo, hi)
    {
      assert records[..i + 1] == records[..i] + [records[i]];
      WindowSnoc(records[..i], records[i], lo, hi);
      if lo <= records[i].ts <= hi {
        r := r + [records[i]];
      }
    }
    assert records[..|records|] == records;
  }

  /** `seen` are the identities in `s`. */
  ghost predicate Records(seen: set<ObsIdentity>, s: seq<Observation>) {
    forall id {:trigger id in seen} :: id in seen <==> Contains(s, id)
  }

  lemma RecordsSnoc(seen: set<ObsIdentity>, s: seq<Observation>, o: Observation)
    requires Records(seen, s)
    ensures Records(seen + {Identity(o)}, s + [o])
  {
    forall id ensures id in seen + {Identity(o)} <==> Contains(s + [o], id) {
      ContainsSnoc(s, o, id);
    }
  }

  /** Keeps the first observation of each identity. */
  method RetainFirst(items: seq<Observation>) returns (r: seq<Observation>)
    ensures r == Dedup(items)
  {
    r := [];
    var seen: set<ObsIdentity> := {};
    for i := 0 to |items|
      invariant r == Dedup(items[..i]) && Records(seen, r)
    {
      assert items[..i + 1] == items[..i] + [items[i]];
      DedupSnoc(items[..i], items[i]);
      var id := Identity(items[i]);
      if id !in seen {
        RecordsSnoc(seen, r, items[i]);
        seen := seen + {id};
        r := r + [items[i]];
      }
    }
    assert items[..|items|] == items;
  }

  /** The items of a block inside `[lo, hi]`. */
  method Filter(items: seq<Observation>, lo: int, hi: int) returns (r: seq<Observation>)
    ensures r == Window(items, lo, hi)
  {
    r := PushRecords([], items, lo, hi);
  }

  // ---------------------------------------------------------------- the station

  /**
   Always true: mentioning it makes the solver instantiate the invariant of the cache, which is kept folded
   elsewhere.
   */
  ghost predicate UnfoldCache(u: bool) {
    true
  }

  /** The cache stores a block. */
  method PutBlock(caches: LruCache<int, Block>, ghost cfg: LruRuns.Config<int>, b: int, block: Block)
    requires caches.Valid() && cfg == LruRuns.Config(caches.hash, caches.shards.Length, caches.caching.Length)
    modifies caches, caches.caching, caches.shards
    ensures caches.Valid() && Viewable(caches.Arena(), caches.lists) && Viewable(old(caches.Arena()), old(caches.lists))
    ensures |old(caches.State()).order| == cfg.shards > 0
    ensures caches.State() == StoreOne(cfg, old(caches.State()), b, block)
  {
    RepViewable(caches.Arena(), caches.hash, caches.lists, caches.owner, {});
    ghost var before := caches.State();
    var evicted := caches.Put(b, block);
    LruRuns.PutIsStep(cfg, before, b, block, evicted, caches.State());
  }

  class TimeseriesStation {
    const caches: LruCache<int, Block>
    const duration: int
    ghost var vals: map<int, Block>
    ghost var view: Cache
    ghost var log: seq<Observation>

    ghost function Cfg(): LruRuns.Config<int> {
      LruRuns.Config(caches.hash, STATION_SHARDS, caches.caching.Length)
    }

    /** The cache is valid, and `view` is what it holds: the blocks `vals`, and in each shard their recency. */
    ghost predicate CacheOk()
      reads this, caches, caches.caching, caches.shards
    {
      && view.vals == vals && CacheState(Cfg(), view)
      && forall u {:trigger UnfoldCache(u)} | UnfoldCache(u) ::
           && caches.Valid() && caches.shards.Length == STATION_SHARDS
           && Viewable(caches.Arena(), caches.lists) && caches.State() == view
    }

    /** Every block of the history has a place in the cache. */
    ghost predicate Fits()
      requires duration > 0
      reads this
    {
      HasRoom(log, duration, caches.caching.Length)
    }

    /** The blocks agree with the log exactly as long as all its blocks have a place, and are tidy in any case. */
    ghost predicate Valid()
      reads this, caches, caches.caching, caches.shards
    {
      duration > 0 && CacheOk() && (Fits() <==> Mirrors(vals, log, duration)) && AllTidy(vals, log, duration)
    }

    constructor (capacity: nat, d: int, hash: Hash<int>)
      requires capacity <= NULL && d > 0
      ensures Valid() && duration == d && log == [] && caches.caching.Length == capacity
      ensures caches.hash == hash && view == EmptyView(STATION_SHARDS)
      ensures fresh(caches) && fresh(caches.caching) && fresh(caches.shards)
    {
      caches := new LruCache<int, Block>(capacity, STATION_SHARDS, hash);
      duration, log, vals, view := d, [], map[], EmptyView(STATION_SHARDS);
      new;
      assert UnfoldCache(true);
      MirrorNothing(d);
    }

    method Fetch(b: int) returns (r: Option<Block>)
      requires CacheOk()
      modifies `view, caches, caches.caching, caches.shards
      ensures CacheOk() && r == if b in vals then Some(vals[b]) else None
      ensures view == ReadOne(Cfg(), old(view), b)
    {
      assert UnfoldCache(true);
      ReadState(Cfg(), view, b);
      r := caches.Get(b);
      view := caches.State();
    }

    method Store(b: int, block: Block)
      requires CacheOk()
      modifies `vals, `view, caches, caches.caching, caches.shards
      ensures CacheOk() && view == StoreOne(Cfg(), old(view), b, block)
    {
      assert UnfoldCache(true);
      StoreState(Cfg(), view, b, block);
      PutBlock(caches, Cfg(), b, block);
      view := caches.State();
      vals := view.vals;
    }

    /** One round of `update_range`. */
    method IngestBlock(b: int, batch: Batch)
      requires CacheOk()
      modifies `vals, `view, caches, caches.caching, caches.shards
      ensures CacheOk() && view == IngestOne(Cfg(), old(view), batch, b, duration)
    {
      var found := Fetch(b);
      var had := if found.Some? then found.value else EmptyBlock();
      var lo, hi := BlockStart(b, duration), BlockEnd(b, duration);
      var items := PushRecords(had.items, batch.records, lo, hi);
      items := RetainFirst(Sort(items));
      var next := Block(items, Min(had.from, Max(batch.from, lo)), Max(had.to, Min(batch.to, hi)), batch.now);
      assert next == NextBlock(vals, batch, b, duration);
      if found.None? && items == [] {
        return;
      }
      Store(b, next);
    }

    /** Ingests a batch that was fetched for `[from, to]`. */
    method UpdateRange(records: seq<Observation>, from: int, to: int, now: int)
      requires Valid()
      modifies this, caches, caches.caching, caches.shards
      ensures Valid() && log == old(log) + Taken(records, from, to, duration)
      ensures Fits() ==> vals == AfterUpdate(old(vals), Batch(records, from, to, now), duration)
      ensures view == IngestRun(Cfg(), old(view), Batch(records, from, to, now), BlockId(from, duration),
                            BlockId(to, duration) + 1, duration)
    {
      var batch := Batch(records, from, to, now);
      IngestStart(Cfg(), view, log, batch, duration);
      IngestBatch(batch, log);
      log := log + Taken(records, from, to, duration);
    }

    method IngestBatch(batch: Batch, ghost history: seq<Observation>)
      requires duration > 0 && CacheOk()
      requires HasRoom(history, duration, Cfg().capacity) ==> Mirrors(vals, history, duration)
      requires var start, end := BlockId(batch.from, duration), BlockId(batch.to, duration);
               Ingesting(Cfg(), view, view, history, batch, start, end, start, duration)
      modifies `vals, `view, caches, caches.caching, caches.shards
      ensures CacheOk()
      ensures BatchDone(Cfg(), old(view), view, history, batch, duration)
    {
      ghost var first := view;
      ghost var upto := IngestBlocks(batch, BlockId(batch.from, duration), BlockId(batch.to, duration), history);
      IngestDone(Cfg(), first, view, history, batch, upto, duration);
    }

    /** The loop of `update_range` over the blocks. */
    method IngestBlocks(batch: Batch, start: int, end: int, ghost history: seq<Observation>) returns (ghost upto: int)
      requires duration > 0 && CacheOk()
      requires Ingesting(Cfg(), view, view, history, batch, start, end, start, duration)
      modifies `vals, `view, caches, caches.caching, caches.shards
      ensures CacheOk() && upto == Max(start, end + 1)
      ensures Ingesting(Cfg(), old(view), view, history, batch, start, end, upto, duration)
    {
      ghost var first := view;
      var b := start;
      while b <= end
        invariant start <= b && (b == start || b <= end + 1) && CacheOk()
        invariant Ingesting(Cfg(), first, view, history, batch, start, end, b, duration)
        decreases end - b
      {
        IngestTurn(Cfg(), first, view, history, batch, start, end, b, duration);
        IngestBlock(b, batch);
        b := b + 1;
      }
      upto := b;
    }

    /** What the station holds for `[from, to]`, oldest first. */
    method QueryRecent(from: int, to: int) returns (r: seq<Observation>)
      requires Valid()
      modifies `view, caches, caches.caching, caches.shards
      ensures Valid()
      ensures Fits() ==> r == RecentAnswer(log, from, to, duration)
      ensures Tidy(r, log, Max(from, BlockStart(FirstBlock(from, to, duration), duration)), to)
      ensures r == Window(Present(vals, FirstBlock(from, to, duration), BlockId(to, duration) + 1), from, to)
      ensures view == Reads(Cfg(), old(view), FirstBlock(from, to, duration), BlockId(to, duration) + 1)
    {
      ghost var first := view;
      ghost var upto;
      r, upto := CollectBlocks(from, to, FirstBlock(from, to, duration), log, Fits());
      ReadingAll(Cfg(), first, view, r, log, from, to, FirstBlock(from, to, duration), upto, duration, Fits());
    }

    /** The loop of `query_recent` from block `start` on: missing blocks are skipped. */
    method CollectBlocks(from: int, to: int, start: int, ghost history: seq<Observation>, ghost mirror: bool)
      returns (r: seq<Observation>, ghost upto: int)
      requires duration > 0 && CacheOk() && (mirror ==> Mirrors(vals, history, duration))
      requires AllTidy(vals, history, duration)
      modifies `view, caches, caches.caching, caches.shards
      ensures CacheOk() && upto == Max(start, BlockId(to, duration) + 1)
      ensures Reading(Cfg(), old(view), view, r, history, from, to, start, upto, duration, mirror)
    {
      r := [];
      ghost var first := view;
      ReadingNothing(Cfg(), view, history, from, to, start, duration, mirror);
      var b, end := start, BlockId(to, duration);
      while b <= end
        invariant start <= b && (b == start || b <= end + 1) && CacheOk() && view.vals == first.vals
        invariant Reading(Cfg(), first, view, r, history, from, to, start, b, duration, mirror)
        decreases end - b
      {
        ReadingNext(Cfg(), first, view, r, history, from, to, start, b, duration, mirror);
        var found := Fetch(b);
        if found.Some? {
          var items := Filter(found.value.items, Max(from, BlockStart(b, duration)), Min(to, BlockEnd(b, duration)));
          r := r + items;
        }
        b := b + 1;
      }
      upto := b;
    }

    /** As `QueryRecent`, but only if every block of the window is present and covers its part. */
    method QueryRange(from: int, to: int) returns (r: Option<seq<Observation>>)
      requires Valid()
      modifies `view, caches, caches.caching, caches.shards
      ensures Valid()
      ensures r.Some? <==> Answers(vals, from, to, duration)
      ensures Fits() ==> r == StrictAnswer(vals, log, from, to, duration)
      ensures r.Some? ==> Tidy(r.value, log, Max(from, BlockStart(BlockId(from, duration), duration)), to)
      ensures r.Some? ==>
                r.value == Window(Present(vals, BlockId(from, duration), BlockId(to, duration) + 1), from, to)
      ensures ReadUntil(Cfg(), old(view), view, BlockId(from, duration), BlockId(to, duration) + 1, r.None?, from, to,
                        duration)
    {
      r := CollectCovered(from, to, BlockId(from, duration), log, Fits());
      assert UnfoldStrict(true);
    }

    /** The items of a block that covers its part of the window. */
    method CoveredPart(b: int, from: int, to: int) returns (r: Option<seq<Observation>>)
      requires CacheOk()
      modifies `view, caches, caches.caching, caches.shards
      ensures CacheOk() && (r.Some? <==> Covers(vals, b, from, to, duration))
      ensures view == ReadOne(Cfg(), old(view), b)
      ensures r.Some? ==> r.value == Clip(vals, b, from, to, duration)
    {
      var found := Fetch(b);
      if found.None? {
        return None;
      }
      var reqStart, reqEnd := Max(from, BlockStart(b, duration)), Min(to, BlockEnd(b, duration));
      if !(reqStart >= found.value.from && reqEnd <= found.value.to) {
        return None;
      }
      var items := Filter(found.value.items, reqStart, reqEnd);
      return Some(items);
    }

    /** The loop of `query_range` from block `start` on. */
    method CollectCovered(from: int, to: int, start: int, ghost history: seq<Observation>, ghost mirror: bool)
      returns (r: Option<seq<Observation>>)
      requires duration > 0 && CacheOk() && (mirror ==> Mirrors(vals, history, duration))
      requires AllTidy(vals, history, duration)
      modifies `view, caches, caches.caching, caches.shards
      ensures CacheOk()
      ensures Strict(Cfg(), old(view), view, r, history, from, to, start, BlockId(to, duration), duration, mirror)
    {
      var result: seq<Observation> := [];
      ghost var first := view;
      CoveringNothing(Cfg(), view, history, from, to, start, duration, mirror);
      var b, end := start, BlockId(to, duration);
      while b <= end
        invariant start <= b && (b == start || b <= end + 1) && CacheOk() && view.vals == first.vals
        invariant Covering(Cfg(), first, view, result, history, from, to, start, b, duration, mirror)
        decreases end - b
      {
        CoveringNext(Cfg(), first, view, result, history, from, to, start, b, end, duration, mirror);
        var items := CoveredPart(b, from, to);
        if items.None? {
          return None;
        }
        result := result + items.value;
        b := b + 1;
      }
      CoveringAll(Cfg(), first, view, result, history, from, to, start, b, duration, mirror);
      return Some(result);
    }

    /** Forgets everything. */
    method Clear()
      requires Valid()
      modifies this, caches, caches.caching, caches.shards
      ensures Valid() && log == [] && view == EmptyView(STATION_SHARDS)
    {
      assert UnfoldCache(true);
      var removed := caches.Clear();
      view := caches.State();
      log, vals := [], map[];
      MirrorNothing(duration);
    }
  }

  // ---------------------------------------------------------------- the rounds of an ingestion

  /** One block had its turn; if another one had to go for it, the rest is as before. */
  ghost predicate Turned(vals: map<int, Block>, before: map<int, Block>, batch: Batch, b: int, d: int, capacity: nat) {
    var block := NextBlock(before, batch, b, d);
    && (b in before || block.items == [] || |before.Keys| < capacity ==>
          vals == if b in before || block.items != [] then before[b := block] else before)
    && Within(vals, before, b, block)
  }

  lemma TurnTurned(cfg: LruRuns.Config<int>, a: Cache, batch: Batch, b: int, d: int)
    requires CacheState(cfg, a)
    ensures Turned(IngestOne(cfg, a, batch, b, d).vals, a.vals, batch, b, d, cfg.capacity)
  {
    TurnExactly(cfg, a, batch, b, d);
    if b !in a.vals {
      NewBlockEmpty(a.vals, batch, b, d);
    }
  }

  /** Always true: mentioning it makes the solver unfold `Ingesting`. */
  ghost predicate UnfoldIngesting(u: bool) {
    true
  }

  /** The blocks from `start` up to `upto` had their turns: all are tidy, and if there is room none was evicted. */
  ghost predicate Ingesting(cfg: LruRuns.Config<int>, first: Cache, a: Cache, log: seq<Observation>, batch: Batch,
                            start: int, end: int, upto: int, d: int)
    requires |first.order| == cfg.shards > 0 && d > 0
  {
    forall u {:trigger UnfoldIngesting(u)} | UnfoldIngesting(u) ::
      var all := log + InBlocks(batch.records, start, end, d);
      && a == IngestRun(cfg, first, batch, start, upto, d) && AllTidy(a.vals, all, d)
      && (HasRoom(all, d, cfg.capacity) ==>
            Mirrors(first.vals, log, d) && Took(a.vals, first.vals, batch, start, upto, d))
  }

  /** After the last turn. */
  ghost predicate BatchDone(cfg: LruRuns.Config<int>, first: Cache, a: Cache, log: seq<Observation>, batch: Batch,
                            d: int)
    requires |first.order| == cfg.shards > 0 && d > 0
  {
    var log' := log + Taken(batch.records, batch.from, batch.to, d);
    && a == IngestRun(cfg, first, batch, BlockId(batch.from, d), BlockId(batch.to, d) + 1, d)
    && AllTidy(a.vals, log', d)
    && (HasRoom(log', d, cfg.capacity) <==> Mirrors(a.vals, log', d))
    && (HasRoom(log', d, cfg.capacity) ==> a.vals == AfterUpdate(first.vals, batch, d))
  }

  lemma IngestStart(cfg: LruRuns.Config<int>, a: Cache, log: seq<Observation>, batch: Batch, d: int)
    requires |a.order| == cfg.shards > 0 && d > 0
    requires AllTidy(a.vals, log, d) && (HasRoom(log, d, cfg.capacity) ==> Mirrors(a.vals, log, d))
    ensures var start, end := BlockId(batch.from, d), BlockId(batch.to, d);
            Ingesting(cfg, a, a, log, batch, start, end, start, d)
  {
    RoomBefore(log, batch, d, cfg.capacity);
    TidyGrows(a.vals, log, Taken(batch.records, batch.from, batch.to, d), d);
    TookNothing(a.vals, batch, BlockId(batch.from, d), d);
  }

  lemma IngestTurn(cfg: LruRuns.Config<int>, first: Cache, a: Cache, log: seq<Observation>, batch: Batch, start: int,
                   end: int, b: int, d: int)
    requires |first.order| == cfg.shards > 0 && d > 0 && start <= b <= end && CacheState(cfg, a)
    requires Ingesting(cfg, first, a, log, batch, start, end, b, d)
    ensures Ingesting(cfg, first, IngestOne(cfg, a, batch, b, d), log, batch, start, end, b + 1, d)
  {
    assert UnfoldIngesting(true);
    var all, vals := log + InBlocks(batch.records, start, end, d), IngestOne(cfg, a, batch, b, d).vals;
    TurnTurned(cfg, a, batch, b, d);
    PartTaken(log, batch.records, start, end, b, d);
    WithinTidy(vals, a.vals, all, batch, b, d);
    NextTurn(cfg, first, batch, start, b + 1, d);
    if HasRoom(all, d, cfg.capacity) {
      TookIs(a.vals, first.vals, batch, start, b, d);
      IngestRound(first.vals, a.vals, vals, log, batch, start, end, b, d, cfg.capacity);
    }
  }

  lemma IngestDone(cfg: LruRuns.Config<int>, first: Cache, a: Cache, log: seq<Observation>, batch: Batch,
                   upto: int, d: int)
    requires |first.order| == cfg.shards > 0 && d > 0 && CacheState(cfg, a)
    requires HasRoom(log, d, cfg.capacity) ==> Mirrors(first.vals, log, d)
    requires var start, end := BlockId(batch.from, d), BlockId(batch.to, d);
             upto == Max(start, end + 1) && Ingesting(cfg, first, a, log, batch, start, end, upto, d)
    ensures BatchDone(cfg, first, a, log, batch, d)
  {
    assert UnfoldIngesting(true);
    StateSize(cfg, a);
    NoTurns(cfg, first, batch, BlockId(batch.from, d), BlockId(batch.to, d), d);
    UpdateOutcome(first.vals, a.vals, log, batch, d, cfg.capacity);
  }

  // ---------------------------------------------------------------- the answer of a query

  /** A strict query has read all its blocks, or those up to the first that does not cover its part. */
  ghost predicate ReadUntil(cfg: LruRuns.Config<int>, before: Cache, after: Cache, start: int, upto: int, failed: bool,
                            from: int, to: int, d: int)
    requires |before.order| == cfg.shards > 0
  {
    if failed then
      exists b {:trigger Reads(cfg, before, start, b + 1)} ::
        && start <= b < upto && !Covers(before.vals, b, from, to, d)
        && CoversAll(before.vals, start, b, from, to, d) && after == Reads(cfg, before, start, b + 1)
    else after == Reads(cfg, before, start, upto)
  }

  /** Always true: mentioning it makes the solver unfold `Covering` and `Strict`. */
  ghost predicate UnfoldStrict(u: bool) {
    true
  }

  /** The blocks from `start` up to `upto` were read, and `r` is what they have. */
  ghost predicate Reading(cfg: LruRuns.Config<int>, first: Cache, a: Cache, r: seq<Observation>, log: seq<Observation>,
                          from: int, to: int, start: int, upto: int, d: int, mirror: bool)
    requires |first.order| == cfg.shards > 0
  {
    forall u {:trigger UnfoldStrict(u)} | UnfoldStrict(u) ::
      && a == Reads(cfg, first, start, upto)
      && Gathered(first.vals, r, log, from, to, start, upto, d, mirror)
  }

  lemma ReadingNothing(cfg: LruRuns.Config<int>, a: Cache, log: seq<Observation>, from: int, to: int, start: int,
                       d: int, mirror: bool)
    requires |a.order| == cfg.shards > 0
    ensures Reading(cfg, a, a, [], log, from, to, start, start, d, mirror)
  {
    GatherNothing(a.vals, log, from, to, start, d, mirror);
  }

  lemma ReadingNext(cfg: LruRuns.Config<int>, first: Cache, a: Cache, r: seq<Observation>, log: seq<Observation>,
                    from: int, to: int, start: int, b: int, d: int, mirror: bool)
    requires |first.order| == |a.order| == cfg.shards > 0 && d > 0 && start <= b
    requires AllTidy(first.vals, log, d) && (mirror ==> Mirrors(first.vals, log, d))
    requires Reading(cfg, first, a, r, log, from, to, start, b, d, mirror)
    ensures Reading(cfg, first, ReadOne(cfg, a, b), r + Clip(first.vals, b, from, to, d), log, from, to, start, b + 1,
                    d, mirror)
    ensures b !in first.vals ==> r + Clip(first.vals, b, from, to, d) == r
  {
    assert UnfoldStrict(true);
    GatherNext(first.vals, r, log, from, to, start, b, d, mirror);
    assert Reads(cfg, first, start, b + 1) == ReadOne(cfg, a, b);
  }

  lemma ReadingAll(cfg: LruRuns.Config<int>, first: Cache, a: Cache, r: seq<Observation>, log: seq<Observation>,
                   from: int, to: int, start: int, upto: int, d: int, mirror: bool)
    requires |first.order| == cfg.shards > 0 && d > 0 && upto == Max(start, BlockId(to, d) + 1)
    requires Reading(cfg, first, a, r, log, from, to, start, upto, d, mirror)
    ensures Answer(first.vals, r, log, from, to, start, d, mirror)
    ensures a == Reads(cfg, first, start, BlockId(to, d) + 1)
  {
    assert UnfoldStrict(true);
    GatherAll(first.vals, r, log, from, to, start, d, mirror);
    NoTurns(cfg, first, Batch([], from, to, 0), start, BlockId(to, d), d);
  }

  /** The blocks from `start` up to `upto` were read and cover their parts, which are `r`. */
  ghost predicate Covering(cfg: LruRuns.Config<int>, first: Cache, a: Cache, r: seq<Observation>,
                           log: seq<Observation>, from: int, to: int, start: int, upto: int, d: int, mirror: bool)
    requires |first.order| == cfg.shards > 0
  {
    forall u {:trigger UnfoldStrict(u)} | UnfoldStrict(u) ::
      && a == Reads(cfg, first, start, upto) && CoversAll(first.vals, start, upto, from, to, d)
      && Gathered(first.vals, r, log, from, to, start, upto, d, mirror)
  }

  /** The outcome of a strict query over the blocks from `start` to `end`. */
  ghost predicate Strict(cfg: LruRuns.Config<int>, first: Cache, a: Cache, r: Option<seq<Observation>>,
                         log: seq<Observation>, from: int, to: int, start: int, end: int, d: int, mirror: bool)
    requires |first.order| == cfg.shards > 0 && d > 0 && end == BlockId(to, d)
  {
    forall u {:trigger UnfoldStrict(u)} | UnfoldStrict(u) ::
      && (r.Some? <==> CoversAll(first.vals, start, end + 1, from, to, d))
      && (r.Some? ==> Answer(first.vals, r.value, log, from, to, start, d, mirror))
      && ReadUntil(cfg, first, a, start, end + 1, r.None?, from, to, d)
  }

  lemma CoveringNothing(cfg: LruRuns.Config<int>, a: Cache, log: seq<Observation>, from: int, to: int, start: int,
                        d: int, mirror: bool)
    requires |a.order| == cfg.shards > 0
    ensures Covering(cfg, a, a, [], log, from, to, start, start, d, mirror)
  {
    GatherNothing(a.vals, log, from, to, start, d, mirror);
  }

  /** One round: the next block covers its part, or the query fails. */
  lemma CoveringNext(cfg: LruRuns.Config<int>, first: Cache, a: Cache, r: seq<Observation>, log: seq<Observation>,
                     from: int, to: int, start: int, b: int, end: int, d: int, mirror: bool)
    requires |first.order| == |a.order| == cfg.shards > 0 && d > 0 && start <= b <= end == BlockId(to, d)
    requires AllTidy(first.vals, log, d) && (mirror ==> Mirrors(first.vals, log, d))
    requires Covering(cfg, first, a, r, log, from, to, start, b, d, mirror)
    ensures if Covers(first.vals, b, from, to, d)
            then Covering(cfg, first, ReadOne(cfg, a, b), r + Clip(first.vals, b, from, to, d), log, from, to, start,
                          b + 1, d, mirror)
            else Strict(cfg, first, ReadOne(cfg, a, b), None, log, from, to, start, end, d, mirror)
  {
    assert UnfoldStrict(true);
    GatherNext(first.vals, r, log, from, to, start, b, d, mirror);
    assert Reads(cfg, first, start, b + 1) == ReadOne(cfg, a, b);
  }

  lemma CoveringAll(cfg: LruRuns.Config<int>, first: Cache, a: Cache, r: seq<Observation>, log: seq<Observation>,
                    from: int, to: int, start: int, upto: int, d: int, mirror: bool)
    requires |first.order| == cfg.shards > 0 && d > 0 && upto == Max(start, BlockId(to, d) + 1)
    requires Covering(cfg, first, a, r, log, from, to, start, upto, d, mirror)
    ensures Strict(cfg, first, a, Some(r), log, from, to, start, BlockId(to, d), d, mirror)
  {
    assert UnfoldStrict(true);
    GatherAll(first.vals, r, log, from, to, start, d, mirror);
  }

  /** What block `b` has inside the window. */
  ghost function Clip(vals: map<int, Block>, b: int, from: int, to: int, d: int): seq<Observation> {
    Window(ItemsOf(vals, b), Max(from, BlockStart(b, d)), Min(to, BlockEnd(b, d)))
  }

  /** Always true: mentioning it makes the solver unfold `Gathered`. */
  ghost predicate UnfoldGathered(u: bool) {
    true
  }

  /** `r` has what the blocks from `start` up to `upto` hold: tidy, and complete if the blocks mirror the log. */
  ghost predicate Gathered(vals: map<int, Block>, r: seq<Observation>, log: seq<Observation>, from: int, to: int,
                           start: int, upto: int, d: int, mirror: bool)
  {
    forall u {:trigger UnfoldGathered(u)} | UnfoldGathered(u) ::
      && r == Window(Present(vals, start, upto), from, to)
      && (mirror ==> r == Collected(log, from, to, start, upto, d))
      && Tidy(r, log, Max(from, BlockStart(start, d)), Min(to, BlockStart(upto, d) - 1))
  }

  /** The same for the whole query. */
  ghost predicate Answer(vals: map<int, Block>, r: seq<Observation>, log: seq<Observation>, from: int, to: int,
                         start: int, d: int, mirror: bool)
    requires d > 0
  {
    && r == Window(Present(vals, start, BlockId(to, d) + 1), from, to)
    && (mirror ==> r == Window(Norm(log), Max(from, BlockStart(start, d)), to))
    && Tidy(r, log, Max(from, BlockStart(start, d)), to)
  }

  lemma GatherNothing(vals: map<int, Block>, log: seq<Observation>, from: int, to: int, start: int, d: int,
                      mirror: bool)
    ensures Gathered(vals, [], log, from, to, start, start, d, mirror)
  {
    CollectStart(log, from, to, start, d);
  }

  /** One round of a query. */
  lemma GatherNext(vals: map<int, Block>, r: seq<Observation>, log: seq<Observation>, from: int, to: int, start: int,
                   b: int, d: int, mirror: bool)
    requires d > 0 && start <= b && AllTidy(vals, log, d) && (mirror ==> Mirrors(vals, log, d))
    requires Gathered(vals, r, log, from, to, start, b, d, mirror)
    ensures Gathered(vals, r + Clip(vals, b, from, to, d), log, from, to, start, b + 1, d, mirror)
    ensures b !in vals ==> r + Clip(vals, b, from, to, d) == r
  {
    assert UnfoldGathered(true);
    RoundTidy(vals, r, log, from, to, start, b, d);
    PresentNext(vals, log, start, b, from, to, d);
    if mirror {
      BlockWindow(vals, log, b, d, from, to);
      CollectStep(log, from, to, start, b, d);
    }
  }

  lemma GatherAll(vals: map<int, Block>, r: seq<Observation>, log: seq<Observation>, from: int, to: int, start: int,
                  d: int, mirror: bool)
    requires d > 0 && Gathered(vals, r, log, from, to, start, Max(start, BlockId(to, d) + 1), d, mirror)
    ensures Answer(vals, r, log, from, to, start, d, mirror)
  {
    assert UnfoldGathered(true);
    FinishQuery(log, from, to, start, d);
  }

  lemma FinishQuery(log: seq<Observation>, from: int, to: int, start: int, d: int)
    requires d > 0
    ensures Collected(log, from, to, start, Max(start, BlockId(to, d) + 1), d) ==
            Window(Norm(log), Max(from, BlockStart(start, d)), to)
  {
    var end := BlockId(to, d);
    CollectEnd(log, from, to, start, d);
    if start > end {
      StartsAscend(end, start, d);
      BlockIdBounds(to, d);
      CollectStart(log, from, to, start, d);
      EmptyWindow(Norm(log), Max(from, BlockStart(start, d)), to);
    }
  }

  // ---------------------------------------------------------------- whole runs

  /** After any run of batches the station stands for everything it took from them. */
  method Replay(capacity: nat, d: int, hash: Hash<int>, batches: seq<Batch>) returns (st: TimeseriesStation)
    requires capacity <= NULL && d > 0
    ensures fresh(st) && fresh(st.caches) && fresh(st.caches.caching) && fresh(st.caches.shards)
    ensures st.Valid() && st.duration == d && st.log == TakenHistory(batches, d) && st.caches.caching.Length == capacity
    ensures st.Fits() ==> st.vals == BlocksAfter(batches, d)
    ensures st.Cfg() == LruRuns.Config(hash, STATION_SHARDS, capacity) && st.view == CacheAfter(st.Cfg(), batches, d)
  {
    st := new TimeseriesStation(capacity, d, hash);
    MirrorBlocks(st.vals, st.log, d);
    for i := 0 to |batches|
      invariant fresh(st) && fresh(st.caches) && fresh(st.caches.caching) && fresh(st.caches.shards)
      invariant st.Valid() && st.duration == d && st.log == TakenHistory(batches[..i], d)
                && st.caches.caching.Length == capacity
      invariant st.Fits() ==> st.vals == BlocksAfter(batches[..i], d)
      invariant st.Cfg() == LruRuns.Config(hash, STATION_SHARDS, capacity)
      invariant st.view == CacheAfter(st.Cfg(), batches[..i], d)
    {
      var batch := batches[i];
      RoomBefore(st.log, batch, d, capacity);
      st.UpdateRange(batch.records, batch.from, batch.to, batch.now);
      assert batches[..i + 1][..i] == batches[..i];
    }
    assert batches[..|batches|] == batches;
  }

  /**
   Both queries after any run. If its blocks fit into the cache, the first answers with the window of
   the log; the second answers exactly when every block it visits is stored and the declarations since
   reach both ends of its part, and then with the window of the log too. In any case the answers are
   tidy.
   */
  method ReplayAndQuery(capacity: nat, d: int, hash: Hash<int>, batches: seq<Batch>, from: int, to: int)
    returns (r: seq<Observation>, strict: Option<seq<Observation>>)
    requires capacity <= NULL && d > 0
    ensures HasRoom(TakenHistory(batches, d), d, capacity) ==>
              && r == RecentAnswer(TakenHistory(batches, d), from, to, d)
              && strict == StrictAnswer(BlocksAfter(batches, d), TakenHistory(batches, d), from, to, d)
              && (strict.Some? <==> forall b | BlockId(from, d) <= b <= BlockId(to, d) ::
                    RunCovers(batches, b, from, to, d))
    ensures Tidy(r, TakenHistory(batches, d), Max(from, BlockStart(FirstBlock(from, to, d), d)), to)
    ensures strict.Some? ==>
              Tidy(strict.value, TakenHistory(batches, d), Max(from, BlockStart(BlockId(from, d), d)), to)
    ensures var vals := CacheAfter(LruRuns.Config(hash, STATION_SHARDS, capacity), batches, d).vals;
            && r == Window(Present(vals, FirstBlock(from, to, d), BlockId(to, d) + 1), from, to)
            && (strict.Some? <==> Answers(vals, from, to, d))
            && (strict.Some? ==> strict.value == Window(Present(vals, BlockId(from, d), BlockId(to, d) + 1), from, to))
  {
    var st := Replay(capacity, d, hash, batches);
    AnswersExactly(batches, from, to, d);
    r := st.QueryRecent(from, to);
    strict := st.QueryRange(from, to);
  }

  /**
   However full the cache is: after any run, the last block of a batch that has records in it answers with all of
   them, and with what it held before unless an earlier block of the same batch has just evicted it.
   */
  method IngestAndQuery(capacity: nat, d: int, hash: Hash<int>, batches: seq<Batch>, batch: Batch, b: int)
    returns (r: seq<Observation>)
    requires 0 < capacity <= NULL && d > 0
    requires BlockId(batch.from, d) <= b <= BlockId(batch.to, d) && !NoRecords(batch, b, d)
    requires forall k | b < k <= BlockId(batch.to, d) :: NoRecords(batch, k, d)
    ensures var cfg := LruRuns.Config(hash, STATION_SHARDS, capacity);
            var a := CacheAfter(cfg, batches, d);
            var at := IngestRun(cfg, a, batch, BlockId(batch.from, d), b, d).vals;
            r == Norm((if b in at then ItemsOf(a.vals, b) else []) + Of(batch.records, b, d))
    ensures forall o | o in Of(batch.records, b, d) :: Contains(r, Identity(o))
  {
    var st := Replay(capacity, d, hash, batches);
    LastKept(st.Cfg(), st.view, batch, BlockId(batch.from, d), BlockId(batch.to, d), b, d);
    NormHasAll(ItemsOf(st.view.vals, b), Of(batch.records, b, d));
    NormHasAll([], Of(batch.records, b, d));
    st.UpdateRange(batch.records, batch.from, batch.to, batch.now);
    r := QueryBlock(st, b);
  }

  /** The query for exactly the window of block `b`. */
  method QueryBlock(st: TimeseriesStation, b: int) returns (r: seq<Observation>)
    requires st.Valid()
    modifies st`view, st.caches, st.caches.caching, st.caches.shards
    ensures st.Valid() && r == ItemsOf(st.vals, b)
  {
    ghost var d := st.duration;
    VisitsBlock(b, d);
    WindowOfBlock(st.vals, st.log, b, BlockId(BlockEnd(b, d), d) + 1, b, d);
    r := st.QueryRecent(BlockStart(b, st.duration), BlockEnd(b, st.duration));
  }

  lemma NormHasAll(s: seq<Observation>, t: seq<Observation>)
    ensures forall o | o in t :: Contains(Norm(s + t), Identity(o))
  {
    forall o | o in t ensures Contains(Norm(s + t), Identity(o)) {
      NormContains(s + t, Identity(o));
      HasMember(s + t, o);
    }
  }

  lemma {:induction false} HasMember(s: seq<Observation>, o: Observation)
    requires o in s
    ensures Contains(s, Identity(o))
  {
    if s[|s| - 1] != o {
      HasMember(s[..|s| - 1], o);
    }
  }

  /** The run, a query, one of the batches again, and the same query: it gets the same answer if the blocks fit. */
  method ReplayAndReingest(capacity: nat, d: int, hash: Hash<int>, batches: seq<Batch>, i: nat, now: int, from: int,
                           to: int)
    returns (r: seq<Observation>, r': seq<Observation>)
    requires capacity <= NULL && d > 0 && i < |batches|
    ensures HasRoom(TakenHistory(batches, d), d, capacity) ==> r == r'
  {
    var st := Replay(capacity, d, hash, batches);
    var batch := batches[i];
    ReingestKeepsRecent(batches, i, now, d);
    assert Again(batches, i, now)[..|batches|] == batches;
    r := st.QueryRecent(from, to);
    st.UpdateRange(batch.records, batch.from, batch.to, now);
    r' := st.QueryRecent(from, to);
  }
}
