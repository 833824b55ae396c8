/**
 What every block and every answer of the station of crates/opsense-core/src/station.rs is, also when blocks
 had to be evicted: sorted by time, without repeated identities, and taken from the history.
 */
module StationTidy {
  import opened Observations
  import opened StationBlocks
  import opened StationLog

  /** Sorted, without repeated identities, from the log, and between `lo` and `hi`. */
  ghost predicate Tidy(items: seq<Observation>, log: seq<Observation>, lo: int, hi: int) {
    Sorted(items) && Unique(items) && forall o | o in items :: o in log && lo <= o.ts <= hi
  }

  ghost predicate TidyBlock(vals: map<int, Block>, log: seq<Observation>, b: int, d: int)
    requires b in vals
  {
    Tidy(vals[b].items, log, BlockStart(b, d), BlockEnd(b, d))
  }

  ghost predicate AllTidy(vals: map<int, Block>, log: seq<Observation>, d: int) {
    forall b {:trigger TidyBlock(vals, log, b, d)} | b in vals :: TidyBlock(vals, log, b, d)
  }

  /** Every block is an old one, or `b` with its new contents: what an eviction leaves. */
  ghost predicate Within(vals: map<int, Block>, before: map<int, Block>, b: int, block: Block) {
    forall k | k in vals :: (k in before && vals[k] == before[k]) || (k == b && vals[k] == block)
  }

  // ---------------------------------------------------------------- members

  lemma {:induction false} InsertMembers(o: Observation, s: seq<Observation>, x: Observation)
    requires x in Insert(o, s)
    ensures x == o || x in s
    decreases |s|
  {
    if s != [] {
      var front, last := Split(s);
      InsertSnoc(o, front, last);
      if last.ts > o.ts && x != last {
        InsertMembers(o, front, x);
      }
    }
  }

  lemma {:induction false} NormMembers(s: seq<Observation>, x: Observation)
    requires x in Norm(s)
    ensures x in s
    decreases |s|
  {
    if s != [] {
      var front, last := Split(s);
      NormSnoc(front, last);
      if x in Norm(front) {
        NormMembers(front, x);
      } else {
        InsertMembers(last, Norm(front), x);
      }
    } else {
      NormEmpty(s);
    }
  }

  lemma {:induction false} WindowTidies(s: seq<Observation>, lo: int, hi: int)
    requires Sorted(s) && Unique(s)
    ensures Sorted(Window(s, lo, hi)) && Unique(Window(s, lo, hi))
    decreases |s|
  {
    if s != [] {
      var front, last := Split(s);
      SortedSnoc(front, last);
      UniqueSnoc(front, last);
      WindowTidies(front, lo, hi);
      WindowSnoc(front, last, lo, hi);
      WindowNotAfter(front, lo, hi, last.ts);
      WindowContains(front, lo, hi, Identity(last));
      SortedSnoc(Window(front, lo, hi), last);
      UniqueSnoc(Window(front, lo, hi), last);
    }
  }

  // ---------------------------------------------------------------- blocks

  lemma NormTidy(s: seq<Observation>, log: seq<Observation>, lo: int, hi: int)
    requires forall o | o in s :: o in log && lo <= o.ts <= hi
    ensures Tidy(Norm(s), log, lo, hi)
  {
    NormSorted(s);
    DedupUnique(Sort(s));
    forall o | o in Norm(s) ensures o in log && lo <= o.ts <= hi {
      NormMembers(s, o);
    }
  }

  /** A block stays tidy when it takes its part of a batch. */
  lemma NextTidy(vals: map<int, Block>, log: seq<Observation>, batch: Batch, b: int, d: int)
    requires AllTidy(vals, log, d) && forall o | o in Of(batch.records, b, d) :: o in log
    ensures Tidy(NextBlock(vals, batch, b, d).items, log, BlockStart(b, d), BlockEnd(b, d))
  {
    var s := ItemsOf(vals, b) + Of(batch.records, b, d);
    forall o | o in s ensures o in log && BlockStart(b, d) <= o.ts <= BlockEnd(b, d) {
      assert b in vals ==> TidyBlock(vals, log, b, d);
      WindowMembers(batch.records, BlockStart(b, d), BlockEnd(b, d), o);
    }
    NormTidy(s, log, BlockStart(b, d), BlockEnd(b, d));
  }

  lemma WithinTidy(vals: map<int, Block>, before: map<int, Block>, log: seq<Observation>, batch: Batch, b: int, d: int)
    requires AllTidy(before, log, d) && forall o | o in Of(batch.records, b, d) :: o in log
    requires Within(vals, before, b, NextBlock(before, batch, b, d))
    ensures AllTidy(vals, log, d)
  {
    NextTidy(before, log, batch, b, d);
    forall k | k in vals ensures TidyBlock(vals, log, k, d) {
      assert k in before ==> TidyBlock(before, log, k, d);
    }
  }

  /** A longer history does not make a block untidy. */
  lemma TidyGrows(vals: map<int, Block>, log: seq<Observation>, more: seq<Observation>, d: int)
    requires AllTidy(vals, log, d)
    ensures AllTidy(vals, log + more, d)
  {
    forall b | b in vals ensures TidyBlock(vals, log + more, b, d) {
      assert TidyBlock(vals, log, b, d);
    }
  }

  /** What a block takes is part of the longer history. */
  lemma PartTaken(log: seq<Observation>, records: seq<Observation>, start: int, end: int, b: int, d: int)
    requires d > 0 && start <= b <= end
    ensures forall o | o in Of(records, b, d) :: o in log + InBlocks(records, start, end, d)
  {
    StartsAscend(start, b, d);
    StartsAscend(b, end, d);
    forall o | o in Of(records, b, d) ensures o in log + InBlocks(records, start, end, d) {
      WindowMembers(records, BlockStart(b, d), BlockEnd(b, d), o);
      WindowMembers(records, BlockStart(start, d), BlockEnd(end, d), o);
    }
  }

  // ---------------------------------------------------------------- answers

  lemma {:induction false} NotAfterAppend(a: seq<Observation>, b: seq<Observation>, t: int)
    requires NotAfter(a, t) && NotAfter(b, t)
    ensures NotAfter(a + b, t)
    decreases |b|
  {
    if b == [] {
      assert a + b == a;
    } else {
      var front, last := Split(b);
      NotAfterSnoc(front, last, t);
      NotAfterAppend(a, front, t);
      NotAfterSnoc(a + front, last, t);
      Regroup(a, front, last);
    }
  }

  lemma {:induction false} ContainsAppend(a: seq<Observation>, b: seq<Observation>, id: ObsIdentity)
    ensures Contains(a + b, id) <==> Contains(a, id) || Contains(b, id)
    decreases |b|
  {
    if b == [] {
      assert a + b == a;
    } else {
      var front, last := Split(b);
      ContainsAppend(a, front, id);
      ContainsSnoc(front, last, id);
      ContainsSnoc(a + front, last, id);
      Regroup(a, front, last);
    }
  }

  lemma {:induction false} ContainsEarlier(s: seq<Observation>, t: int, id: ObsIdentity)
    requires NotAfter(s, t) && id.ts > t
    ensures !Contains(s, id)
  {
    if s != [] {
      ContainsEarlier(s[..|s| - 1], t, id);
    }
  }

  lemma {:induction false} AllNotAfter(s: seq<Observation>, t: int)
    requires forall o | o in s :: o.ts <= t
    ensures NotAfter(s, t)
  {
    if s != [] {
      assert s[|s| - 1] in s;
      AllNotAfter(s[..|s| - 1], t);
    }
  }

  /** Later items after earlier ones. */
  lemma {:induction false} JoinTidies(a: seq<Observation>, b: seq<Observation>, t: int)
    requires Sorted(a) && Unique(a) && Sorted(b) && Unique(b) && NotAfter(a, t) && forall o | o in b :: o.ts > t
    ensures Sorted(a + b) && Unique(a + b)
    decreases |b|
  {
    if b == [] {
      assert a + b == a;
    } else {
      var front, last := Split(b);
      SortedSnoc(front, last);
      UniqueSnoc(front, last);
      assert last in b && forall o | o in front :: o in b;
      JoinTidies(a, front, t);
      NotAfterLater(a, t, last.ts);
      NotAfterAppend(a, front, last.ts);
      ContainsAppend(a, front, Identity(last));
      ContainsEarlier(a, t, Identity(last));
      SortedSnoc(a + front, last);
      UniqueSnoc(a + front, last);
      Regroup(a, front, last);
    }
  }

  /** The answer stays tidy when the part of the next block is appended. */
  lemma AppendTidy(r: seq<Observation>, items: seq<Observation>, log: seq<Observation>, from: int, to: int, first: int,
                   next: int, last: int)
    requires Tidy(r, log, Max(from, first), Min(to, next - 1)) && Tidy(items, log, next, last)
    requires first <= next <= last + 1
    ensures Tidy(r + Window(items, Max(from, next), Min(to, last)), log, Max(from, first), Min(to, last))
  {
    var w := Window(items, Max(from, next), Min(to, last));
    WindowTidies(items, Max(from, next), Min(to, last));
    forall o | o in w ensures o in items && Max(from, next) <= o.ts <= Min(to, last) {
      WindowMembers(items, Max(from, next), Min(to, last), o);
    }
    AllNotAfter(r, next - 1);
    JoinTidies(r, w, next - 1);
  }

  /** The same for the part of block `b`, which may be missing. */
  lemma RoundTidy(vals: map<int, Block>, r: seq<Observation>, log: seq<Observation>, from: int, to: int, start: int,
                  b: int, d: int)
    requires d > 0 && start <= b && AllTidy(vals, log, d)
    requires Tidy(r, log, Max(from, BlockStart(start, d)), Min(to, BlockStart(b, d) - 1))
    ensures var part := Window(ItemsOf(vals, b), Max(from, BlockStart(b, d)), Min(to, BlockEnd(b, d)));
            Tidy(r + part, log, Max(from, BlockStart(start, d)), Min(to, BlockStart(b + 1, d) - 1))
  {
    Multiples(b, b, d);
    StartsAscend(start, b, d);
    if b in vals {
      assert TidyBlock(vals, log, b, d);
    }
    AppendTidy(r, ItemsOf(vals, b), log, from, to, BlockStart(start, d), BlockStart(b, d), BlockEnd(b, d));
  }
}
