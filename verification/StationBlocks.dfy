/**
 The block index of crates/opsense-core/src/station.rs as a value: when the blocks agree with a log,
 and what ingesting a batch block by block does to that agreement.
 */
module StationBlocks {
  import opened Observations
  import opened StationLog

  datatype Block = Block(items: seq<Observation>, from: int, to: int, lastUpdated: int)

  /** The records fetched for the window `[from, to]`. */
  datatype Batch = Batch(records: seq<Observation>, from: int, to: int, now: int)

  const I64_MAX: int := 0x7FFF_FFFF_FFFF_FFFF

  function EmptyBlock(): Block {
    Block([], I64_MAX, 0, 0)
  }

  const MAX_BLOCKS_PER_QUERY: int := 20_000

  /** Division that truncates toward zero, as `get_block_id` does. */
  function BlockId(ts: int, d: int): int
    requires d > 0
  {
    if ts >= 0 then ts / d else -((-ts) / d)
  }

  function BlockStart(b: int, d: int): int {
    b * d
  }

  function BlockEnd(b: int, d: int): int {
    (b + 1) * d - 1
  }

  /** The observations of block `b`. */
  ghost function Of(log: seq<Observation>, b: int, d: int): seq<Observation> {
    Window(log, BlockStart(b, d), BlockEnd(b, d))
  }

  /** What `update_range` takes from a batch: everything in the blocks of the declared window. */
  ghost function Taken(records: seq<Observation>, from: int, to: int, d: int): seq<Observation>
    requires d > 0
  {
    InBlocks(records, BlockId(from, d), BlockId(to, d), d)
  }

  ghost function InBlocks(records: seq<Observation>, start: int, end: int, d: int): seq<Observation> {
    Window(records, BlockStart(start, d), BlockEnd(end, d))
  }

  /** The entry for block `b` is the log of `part`; there is none when `part` is empty. */
  ghost predicate Entry(vals: map<int, Block>, part: seq<Observation>, b: int) {
    if b in vals then part != [] && vals[b].items == Norm(part) else part == []
  }

  ghost predicate Mirrors(vals: map<int, Block>, log: seq<Observation>, d: int) {
    forall b {:trigger Of(log, b, d)} :: Entry(vals, Of(log, b, d), b)
  }

  ghost function BlocksOf(log: seq<Observation>, d: int): set<int>
    requires d > 0
  {
    set o | o in log :: o.ts / d
  }

  // ---------------------------------------------------------------- blocks and times

  lemma Multiples(a: int, b: int, d: int)
    requires d > 0
    ensures (a + 1) * d == a * d + d
    ensures a <= b ==> a * d <= b * d
    ensures a < b ==> a * d + d <= b * d
  {
    if a < b {
      Product(b - a - 1, d);
      assert (b - a - 1) * d == b * d - a * d - d;
    }
  }

  lemma Product(x: int, d: int)
    requires x >= 0 && d > 0
    ensures x * d >= 0
  {
  }

  lemma InBlock(ts: int, b: int, d: int)
    requires d > 0
    ensures BlockStart(b, d) <= ts <= BlockEnd(b, d) <==> ts / d == b
  {
    var q := ts / d;
    assert ts == q * d + ts % d;
    Multiples(b, q, d);
    Multiples(q, b, d);
  }

  /** Truncation agrees with rounding down for times from 0 on; below it goes up. */
  lemma BlockIdBounds(ts: int, d: int)
    requires d > 0
    ensures ts >= 0 ==> BlockId(ts, d) == ts / d
    ensures ts / d <= BlockId(ts, d) && ts <= BlockEnd(BlockId(ts, d), d)
  {
    InBlock(ts, ts / d, d);
    if ts < 0 {
      var k := (-ts) / d;
      assert -ts == k * d + (-ts) % d;
      assert (-k) * d == -(k * d);
      Multiples(-k, -k, d);
      NotAbove(ts, -k, d);
    }
  }

  lemma NotAbove(ts: int, b: int, d: int)
    requires d > 0 && ts <= BlockEnd(b, d)
    ensures ts / d <= b
  {
    var q := ts / d;
    assert ts == q * d + ts % d;
    Multiples(b, q, d);
  }

  lemma {:induction false} WindowSome(s: seq<Observation>, lo: int, hi: int)
    ensures Window(s, lo, hi) != [] <==> exists o :: o in s && lo <= o.ts <= hi
    decreases |s|
  {
    if s != [] {
      var front, last := Split(s);
      WindowSome(front, lo, hi);
      WindowSnoc(front, last, lo, hi);
      assert forall o :: o in s <==> o in front || o == last;
    }
  }

  lemma BlockPresent(log: seq<Observation>, b: int, d: int)
    requires d > 0
    ensures b in BlocksOf(log, d) <==> Of(log, b, d) != []
  {
    WindowSome(log, BlockStart(b, d), BlockEnd(b, d));
    forall o | o in log ensures BlockStart(b, d) <= o.ts <= BlockEnd(b, d) <==> o.ts / d == b {
      InBlock(o.ts, b, d);
    }
  }

  lemma StartsAscend(a: int, b: int, d: int)
    requires d > 0 && a <= b
    ensures BlockStart(a, d) <= BlockStart(b, d) && BlockEnd(a, d) <= BlockEnd(b, d)
    ensures a < b ==> BlockEnd(a, d) < BlockStart(b, d)
  {
    Multiples(a, b, d);
    Multiples(b, b, d);
  }

  // ---------------------------------------------------------------- ingesting

  /** What block `b` stands for when the blocks from `start` up to `upto` have taken their part of the batch. */
  ghost function Part(log: seq<Observation>, records: seq<Observation>, start: int, upto: int, b: int,
                      d: int): seq<Observation> {
    if start <= b < upto then Of(log, b, d) + Of(records, b, d) else Of(log, b, d)
  }

  ghost predicate Ingested(vals: map<int, Block>, log: seq<Observation>, records: seq<Observation>, start: int,
                           upto: int, d: int) {
    forall b {:trigger Part(log, records, start, upto, b, d)} :: Entry(vals, Part(log, records, start, upto, b, d), b)
  }

  /** Block by block, every block gets what a log that was extended by the whole batch has for it. */
  lemma PartOfAll(log: seq<Observation>, records: seq<Observation>, start: int, end: int, b: int, d: int)
    requires d > 0 && start <= end
    ensures Part(log, records, start, end + 1, b, d) == Of(log + InBlocks(records, start, end, d), b, d)
  {
    var lo, hi := BlockStart(b, d), BlockEnd(b, d);
    WindowAppend(log, InBlocks(records, start, end, d), lo, hi);
    WindowWindow(records, BlockStart(start, d), BlockEnd(end, d), lo, hi);
    if start <= b <= end {
      StartsAscend(start, b, d);
      StartsAscend(b, end, d);
    } else {
      if b < start {
        StartsAscend(b, start, d);
      } else {
        StartsAscend(end, b, d);
      }
      EmptyWindow(records, Max(BlockStart(start, d), lo), Min(BlockEnd(end, d), hi));
    }
  }

  lemma {:induction false} EmptyWindow(s: seq<Observation>, lo: int, hi: int)
    requires lo > hi
    ensures Window(s, lo, hi) == []
  {
    if s != [] {
      EmptyWindow(s[..|s| - 1], lo, hi);
    }
  }

  lemma NormEmpty(s: seq<Observation>)
    ensures Norm(s) == [] <==> s == []
  {
    if s != [] {
      var front, last := Split(s);
      NormSnoc(front, last);
      InsertContains(last, Norm(front), Identity(last));
    }
  }

  /** The items of a block before the batch. */
  function ItemsOf(vals: map<int, Block>, b: int): seq<Observation> {
    if b in vals then vals[b].items else []
  }

  /** Block `b` after it has taken its part of the batch. */
  ghost function NextBlock(vals: map<int, Block>, batch: Batch, b: int, d: int): Block {
    var had := if b in vals then vals[b] else EmptyBlock();
    Block(Norm(had.items + Of(batch.records, b, d)), Min(had.from, Max(batch.from, BlockStart(b, d))),
          Max(had.to, Min(batch.to, BlockEnd(b, d))), batch.now)
  }

  /** The blocks after those from `start` up to `upto` have had their turn: a new one only appears with records. */
  ghost function TurnsTaken(vals: map<int, Block>, batch: Batch, start: int, upto: int, d: int): map<int, Block>
    requires d > 0
  {
    map b | b in vals.Keys + BlocksOf(batch.records, d) && (b in vals || start <= b < upto) ::
      if start <= b < upto then NextBlock(vals, batch, b, d) else vals[b]
  }

  /** The blocks after `update_range`, if none has to be evicted. */
  ghost function AfterUpdate(vals: map<int, Block>, batch: Batch, d: int): map<int, Block>
    requires d > 0
  {
    TurnsTaken(vals, batch, BlockId(batch.from, d), BlockId(batch.to, d) + 1, d)
  }

  lemma AfterAt(vals: map<int, Block>, batch: Batch, start: int, upto: int, b: int, d: int)
    requires d > 0
    ensures var m := TurnsTaken(vals, batch, start, upto, d);
            && (b in m <==> b in vals || (start <= b < upto && Of(batch.records, b, d) != []))
            && (b in m ==> m[b] == if start <= b < upto then NextBlock(vals, batch, b, d) else vals[b])
  {
    BlockPresent(batch.records, b, d);
  }

  /** A new block has items exactly when the batch has records for it. */
  lemma NewItems(vals: map<int, Block>, batch: Batch, b: int, d: int)
    requires b !in vals
    ensures NextBlock(vals, batch, b, d).items != [] <==> Of(batch.records, b, d) != []
  {
    assert [] + Of(batch.records, b, d) == Of(batch.records, b, d);
    NormEmpty(Of(batch.records, b, d));
  }

  /** Each block's turn. */
  lemma AfterStep(vals: map<int, Block>, batch: Batch, start: int, b: int, d: int)
    requires d > 0 && start <= b
    ensures var m, block := TurnsTaken(vals, batch, start, b, d), NextBlock(vals, batch, b, d);
            && NextBlock(m, batch, b, d) == block && (b in m <==> b in vals)
            && TurnsTaken(vals, batch, start, b + 1, d) == if b in m || block.items != [] then m[b := block] else m
  {
    var m, m', block := TurnsTaken(vals, batch, start, b, d), TurnsTaken(vals, batch, start, b + 1, d),
      NextBlock(vals, batch, b, d);
    AfterAt(vals, batch, start, b, b, d);
    if b !in vals {
      NewItems(vals, batch, b, d);
    }
    var r := if b in m || block.items != [] then m[b := block] else m;
    forall c ensures (c in m' <==> c in r) && (c in r ==> m'[c] == r[c]) {
      AfterAt(vals, batch, start, b, c, d);
      AfterAt(vals, batch, start, b + 1, c, d);
    }
  }

  /** Blocks that agreed with the log agree with what it becomes. */
  lemma AfterIngested(vals: map<int, Block>, log: seq<Observation>, batch: Batch, start: int, upto: int, d: int)
    requires d > 0 && Mirrors(vals, log, d)
    ensures Ingested(TurnsTaken(vals, batch, start, upto, d), log, batch.records, start, upto, d)
  {
    var m := TurnsTaken(vals, batch, start, upto, d);
    forall b ensures Entry(m, Part(log, batch.records, start, upto, b, d), b) {
      assert Entry(vals, Of(log, b, d), b);
      BlockPresent(batch.records, b, d);
      if start <= b < upto {
        EntryTakes(vals, m, Of(log, b, d), Of(batch.records, b, d), b);
      }
    }
  }

  lemma EntryTakes(vals: map<int, Block>, m: map<int, Block>, part: seq<Observation>, more: seq<Observation>, b: int)
    requires Entry(vals, part, b) && (b in m <==> b in vals || more != [])
    requires b in m ==> m[b].items == Norm(ItemsOf(vals, b) + more)
    ensures Entry(m, part + more, b)
  {
    NormEmpty(part);
    NormAgain(part, more);
  }

  /** While all blocks of the extended log fit, there is room for the next one. */
  lemma RoomForBlock(vals: map<int, Block>, log: seq<Observation>, records: seq<Observation>, start: int, end: int,
                     b: int, d: int, capacity: nat)
    requires d > 0 && start <= b <= end && Ingested(vals, log, records, start, b, d)
    requires |BlocksOf(log + InBlocks(records, start, end, d), d)| <= capacity
    ensures b in vals || Of(records, b, d) == [] || |vals.Keys| < capacity
  {
    if b !in vals && Of(records, b, d) != [] {
      var all := BlocksOf(log + InBlocks(records, start, end, d), d);
      forall c | c in vals.Keys + {b} ensures c in all {
        assert Entry(vals, Part(log, records, start, b, c, d), c);
        PartOfAll(log, records, start, end, c, d);
        BlockPresent(log + InBlocks(records, start, end, d), c, d);
      }
      SubsetSize(vals.Keys + {b}, all);
    }
  }

  lemma SubsetSize(a: set<int>, b: set<int>)
    requires a <= b
    ensures |a| <= |b|
  {
    assert b == a + (b - a);
  }

  /** A smaller log has no more blocks. */
  lemma BlocksGrow(log: seq<Observation>, more: seq<Observation>, d: int)
    requires d > 0
    ensures |BlocksOf(log, d)| <= |BlocksOf(log + more, d)|
  {
    assert forall o | o in log :: o in log + more;
    SubsetSize(BlocksOf(log, d), BlocksOf(log + more, d));
  }

  lemma IngestEnd(vals: map<int, Block>, log: seq<Observation>, records: seq<Observation>, start: int, end: int, d: int)
    requires d > 0 && Ingested(vals, log, records, start, Max(start, end + 1), d)
    ensures Mirrors(vals, log + InBlocks(records, start, end, d), d)
  {
    if start <= end {
      forall b ensures Entry(vals, Of(log + InBlocks(records, start, end, d), b, d), b) {
        PartOfAll(log, records, start, end, b, d);
        assert Entry(vals, Part(log, records, start, end + 1, b, d), b);
      }
    } else {
      StartsAscend(end, start, d);
      EmptyWindow(records, BlockStart(start, d), BlockEnd(end, d));
      assert log + [] == log;
      forall b ensures Entry(vals, Of(log, b, d), b) {
        assert Entry(vals, Part(log, records, start, start, b, d), b);
      }
    }
  }

  /**
   These are always true. Mentioning one makes the solver instantiate what is kept folded under a
   quantifier over it; they do nothing else.
   */
  ghost predicate UnfoldRoom(u: bool) {
    true
  }

  ghost predicate UnfoldTook(u: bool) {
    true
  }

  /** All blocks of the log fit into the cache. */
  ghost predicate HasRoom(log: seq<Observation>, d: int, capacity: nat)
    requires d > 0
  {
    forall u {:trigger UnfoldRoom(u)} | UnfoldRoom(u) :: |BlocksOf(log, d)| <= capacity
  }

  lemma HasRoomIs(log: seq<Observation>, d: int, capacity: nat)
    requires d > 0
    ensures HasRoom(log, d, capacity) <==> |BlocksOf(log, d)| <= capacity
  {
    assert UnfoldRoom(true);
  }

  /** The blocks are those after the turns from `start` up to `upto`. */
  ghost predicate Took(vals: map<int, Block>, before: map<int, Block>, batch: Batch, start: int, upto: int, d: int)
    requires d > 0
  {
    forall u {:trigger UnfoldTook(u)} | UnfoldTook(u) :: vals == TurnsTaken(before, batch, start, upto, d)
  }

  lemma TookIs(vals: map<int, Block>, before: map<int, Block>, batch: Batch, start: int, upto: int, d: int)
    requires d > 0
    ensures Took(vals, before, batch, start, upto, d) <==> vals == TurnsTaken(before, batch, start, upto, d)
  {
    assert UnfoldTook(true);
  }

  lemma TookNothing(vals: map<int, Block>, batch: Batch, start: int, d: int)
    requires d > 0
    ensures Took(vals, vals, batch, start, start, d)
  {
    assert TurnsTaken(vals, batch, start, start, d) == vals;
  }

  /** One round of `update_range`: while all blocks fit, nothing is evicted. */
  lemma IngestRound(before: map<int, Block>, vals: map<int, Block>, vals': map<int, Block>, log: seq<Observation>,
                    batch: Batch,
                    start: int, end: int, b: int, d: int, capacity: nat)
    requires d > 0 && start <= b <= end && Mirrors(before, log, d)
    requires HasRoom(log + InBlocks(batch.records, start, end, d), d, capacity)
    requires vals == TurnsTaken(before, batch, start, b, d)
    requires var block := NextBlock(vals, batch, b, d);
             b in vals || block.items == [] || |vals.Keys| < capacity ==>
               vals' == if b in vals || block.items != [] then vals[b := block] else vals
    ensures Took(vals', before, batch, start, b + 1, d)
  {
    AfterStep(before, batch, start, b, d);
    AfterIngested(before, log, batch, start, b, d);
    HasRoomIs(log + InBlocks(batch.records, start, end, d), d, capacity);
    RoomForBlock(vals, log, batch.records, start, end, b, d, capacity);
    if b !in vals && Of(batch.records, b, d) == [] {
      assert ItemsOf(vals, b) + Of(batch.records, b, d) == [];
      NormEmpty([]);
    }
  }

  /** All rounds together. */
  lemma IngestAll(before: map<int, Block>, log: seq<Observation>, batch: Batch, start: int, end: int, d: int)
    requires d > 0 && Mirrors(before, log, d)
    ensures TurnsTaken(before, batch, start, Max(start, end + 1), d) == TurnsTaken(before, batch, start, end + 1, d)
    ensures Mirrors(TurnsTaken(before, batch, start, end + 1, d), log + InBlocks(batch.records, start, end, d), d)
  {
    AfterIngested(before, log, batch, start, Max(start, end + 1), d);
    IngestEnd(TurnsTaken(before, batch, start, Max(start, end + 1), d), log, batch.records, start, end, d);
  }

  /** Blocks that agree with a log are as many as the log has. */
  lemma MirrorBlocks(vals: map<int, Block>, log: seq<Observation>, d: int)
    requires d > 0 && Mirrors(vals, log, d)
    ensures vals.Keys == BlocksOf(log, d)
  {
    forall b ensures b in vals <==> b in BlocksOf(log, d) {
      assert Entry(vals, Of(log, b, d), b);
      BlockPresent(log, b, d);
    }
  }

  /** A log that has room had room before. */
  lemma RoomBefore(log: seq<Observation>, batch: Batch, d: int, capacity: nat)
    requires d > 0
    ensures HasRoom(log + Taken(batch.records, batch.from, batch.to, d), d, capacity) ==> HasRoom(log, d, capacity)
  {
    var more := Taken(batch.records, batch.from, batch.to, d);
    BlocksGrow(log, more, d);
    HasRoomIs(log, d, capacity);
    HasRoomIs(log + more, d, capacity);
  }

  /**
   After `update_range`: the blocks agree with the longer log exactly when it has room, and are what the batch
   makes of them.
   */
  lemma UpdateOutcome(before: map<int, Block>, vals: map<int, Block>, log: seq<Observation>, batch: Batch, d: int,
                      capacity: nat)
    requires d > 0 && |vals.Keys| <= capacity && (HasRoom(log, d, capacity) ==> Mirrors(before, log, d))
    requires HasRoom(log + Taken(batch.records, batch.from, batch.to, d), d, capacity) ==>
               Took(vals, before, batch, BlockId(batch.from, d),
                    Max(BlockId(batch.from, d), BlockId(batch.to, d) + 1), d)
    ensures var log' := log + Taken(batch.records, batch.from, batch.to, d);
            && (HasRoom(log', d, capacity) <==> Mirrors(vals, log', d))
            && (HasRoom(log', d, capacity) ==> vals == AfterUpdate(before, batch, d))
  {
    var log', start, end := log + Taken(batch.records, batch.from, batch.to, d), BlockId(batch.from, d),
      BlockId(batch.to, d);
    RoomBefore(log, batch, d, capacity);
    HasRoomIs(log', d, capacity);
    if HasRoom(log', d, capacity) {
      TookIs(vals, before, batch, start, Max(start, end + 1), d);
      IngestAll(before, log, batch, start, end, d);
    } else if Mirrors(vals, log', d) {
      MirrorBlocks(vals, log', d);
    }
  }

  // ---------------------------------------------------------------- querying

  /** The part of block `b` that a query for `[from, to]` collects. */
  lemma BlockWindow(vals: map<int, Block>, log: seq<Observation>, b: int, d: int, from: int, to: int)
    requires Mirrors(vals, log, d)
    ensures Window(ItemsOf(vals, b), Max(from, BlockStart(b, d)), Min(to, BlockEnd(b, d))) ==
            Window(Norm(log), Max(from, BlockStart(b, d)), Min(to, BlockEnd(b, d)))
  {
    var lo, hi := BlockStart(b, d), BlockEnd(b, d);
    assert Entry(vals, Of(log, b, d), b);
    WindowNorm(log, lo, hi);
    NormEmpty(Of(log, b, d));
    WindowWindow(Norm(log), lo, hi, Max(from, lo), Min(to, hi));
  }

  /** The result of a query after the blocks from `start` up to `upto`. */
  ghost function Collected(log: seq<Observation>, from: int, to: int, start: int, upto: int, d: int): seq<Observation> {
    Window(Norm(log), Max(from, BlockStart(start, d)), Min(to, BlockStart(upto, d) - 1))
  }

  lemma CollectStep(log: seq<Observation>, from: int, to: int, start: int, b: int, d: int)
    requires d > 0 && start <= b
    ensures Collected(log, from, to, start, b, d) + Window(Norm(log), Max(from, BlockStart(b, d)),
                                                           Min(to, BlockEnd(b, d))) ==
            Collected(log, from, to, start, b + 1, d)
  {
    Multiples(b, b, d);
    StartsAscend(start, b, d);
    NormSorted(log);
    WindowsMeet(Norm(log), from, to, BlockStart(start, d), BlockStart(b, d), BlockEnd(b, d));
  }

  /** Two adjacent pieces of a clipped window. */
  lemma WindowsMeet(s: seq<Observation>, from: int, to: int, first: int, next: int, last: int)
    requires Sorted(s) && first <= next <= last + 1
    ensures Window(s, Max(from, first), Min(to, next - 1)) + Window(s, Max(from, next), Min(to, last)) ==
            Window(s, Max(from, first), Min(to, last))
  {
    var lo, hi := Max(from, first), Min(to, last);
    if to < next {
      EmptyWindow(s, Max(from, next), hi);
    } else if from >= next {
      EmptyWindow(s, lo, next - 1);
    } else {
      WindowJoin(s, lo, next - 1, hi);
    }
  }

  lemma CollectStart(log: seq<Observation>, from: int, to: int, start: int, d: int)
    ensures Collected(log, from, to, start, start, d) == []
  {
    EmptyWindow(Norm(log), Max(from, BlockStart(start, d)), Min(to, BlockStart(start, d) - 1));
  }

  lemma CollectEnd(log: seq<Observation>, from: int, to: int, start: int, d: int)
    requires d > 0
    ensures Collected(log, from, to, start, BlockId(to, d) + 1, d) ==
            Window(Norm(log), Max(from, BlockStart(start, d)), to)
  {
    BlockIdBounds(to, d);
  }
}
