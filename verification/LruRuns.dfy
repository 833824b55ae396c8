/**
 Whole runs of the cache of crates/opsense-mlib/src/lru.rs, on its view: nothing is lost or made up
 (every new key is live, was evicted or was removed), and with one shard it is textbook LRU.
 */
module LruRuns {
  import opened LruArena
  import opened LruList
  import opened LruView
  import opened Wrappers

  datatype Event<K, V> =
    | Get(key: K)
    | Put(key: K, value: V)
    | Remove(key: K)
    | Clear

  datatype Config<!K> = Config(hash: Hash<K>, shards: nat, capacity: nat)

  // ---------------------------------------------------------------- one step

  /** The number of leading empty shards. */
  ghost function FirstNonEmpty<K>(order: seq<seq<K>>): nat {
    if order == [] || order[0] != [] then 0 else 1 + FirstNonEmpty(order[1..])
  }

  lemma {:induction false} LowestIsFirst<K>(order: seq<seq<K>>, s: nat)
    requires Lowest(order, s)
    ensures FirstNonEmpty(order) == s
  {
    if s > 0 {
      assert order[0] == [];
      LowestIsFirst(order[1..], s - 1);
    }
  }

  lemma {:induction false} FirstIsLowest<K>(order: seq<seq<K>>, t: nat)
    requires t < |order| && order[t] != []
    ensures Lowest(order, FirstNonEmpty(order))
  {
    if order[0] == [] {
      FirstIsLowest(order[1..], t - 1);
    }
  }

  /** The key that a `put` of a new key into a full cache evicts. */
  ghost function Victim<K, V>(a: View<K, V>): Option<K> {
    var s := FirstNonEmpty(a.order);
    if s < |a.order| && a.order[s] != [] then Some(Oldest(a.order, s)) else None
  }

  /** The view after a `put` of a new key. */
  ghost function Added<K, V>(cfg: Config<K>, a: View<K, V>, k: K, v: V): View<K, V>
    requires |a.order| == cfg.shards > 0
  {
    var s := ShardOf(cfg.hash, k, cfg.shards);
    if cfg.capacity == 0 then a
    else if |a.vals.Keys| < cfg.capacity || Victim(a).None? then Inserted(a, s, k, v)
    else Inserted(Dropped(a, FirstNonEmpty(a.order), Victim(a).value), s, k, v)
  }

  ghost function Step<K(!new), V>(cfg: Config<K>, a: View<K, V>, e: Event<K, V>): (b: View<K, V>)
    requires |a.order| == cfg.shards > 0
    ensures |b.order| == cfg.shards
  {
    match e
    case Get(k) => if k in a.vals then Used(a, ShardOf(cfg.hash, k, cfg.shards), k) else a
    case Put(k, v) => if k in a.vals then Updated(a, ShardOf(cfg.hash, k, cfg.shards), k, v) else Added(cfg, a, k, v)
    case Remove(k) => if k in a.vals then Dropped(a, ShardOf(cfg.hash, k, cfg.shards), k) else a
    case Clear => View(seq(cfg.shards, i => []), map[])
  }

  /** What the method `Put` of the cache promises is this step, and it evicts exactly when the cache is full. */
  lemma PutIsStep<K(!new), V>(cfg: Config<K>, a: View<K, V>, k: K, v: V, evicted: Option<(K, V)>, b: View<K, V>)
    requires |a.order| == cfg.shards > 0 && PutSpec(a, cfg.hash, cfg.capacity, k, v, evicted, b)
    ensures b == Step(cfg, a, Put(k, v))
    ensures evicted.Some? <==> k !in a.vals && cfg.capacity > 0 && |a.vals.Keys| == cfg.capacity
    ensures evicted.Some? ==> Victim(a) == Some(evicted.value.0)
  {
    if evicted.Some? {
      var s :| Oust(a, s, evicted.value.0, evicted.value.1);
      LowestIsFirst(a.order, s);
    }
  }

  // ---------------------------------------------------------------- consistency of the view

  lemma {:induction false} WithoutMembers<K>(s: seq<K>, k: K)
    requires NoDup(s)
    ensures NoDup(Without(s, k)) && forall x :: x in Without(s, k) <==> x in s && x != k
  {
    if s != [] {
      assert NoDup(s[1..]) && s[0] !in s[1..];
      WithoutMembers(s[1..], k);
      assert forall x :: x in s <==> x == s[0] || x in s[1..];
    }
  }

  lemma UsedConsistent<K(!new), V>(hash: Hash<K>, a: View<K, V>, k: K)
    requires Consistent(a, hash) && k in a.vals
    ensures Consistent(Used(a, ShardOf(hash, k, |a.order|), k), hash)
  {
    WithoutMembers(a.order[ShardOf(hash, k, |a.order|)], k);
  }

  lemma DroppedConsistent<K(!new), V>(hash: Hash<K>, a: View<K, V>, k: K)
    requires Consistent(a, hash)
    ensures Consistent(Dropped(a, ShardOf(hash, k, |a.order|), k), hash)
  {
    WithoutMembers(a.order[ShardOf(hash, k, |a.order|)], k);
  }

  lemma InsertedConsistent<K(!new), V>(hash: Hash<K>, a: View<K, V>, k: K, v: V)
    requires Consistent(a, hash) && k !in a.vals
    ensures Consistent(Inserted(a, ShardOf(hash, k, |a.order|), k, v), hash)
  {
    assert k !in a.order[ShardOf(hash, k, |a.order|)];
  }

  /** A full cache has a victim: a stored key, in its own shard. */
  lemma VictimStored<K(!new), V>(hash: Hash<K>, a: View<K, V>)
    requires Consistent(a, hash) && |a.vals.Keys| > 0
    ensures var s := FirstNonEmpty(a.order);
            && Lowest(a.order, s) && Victim(a) == Some(Oldest(a.order, s))
            && Oldest(a.order, s) in a.vals && ShardOf(hash, Oldest(a.order, s), |a.order|) == s
  {
    var k :| k in a.vals.Keys;
    var t := ShardOf(hash, k, |a.order|);
    assert k in a.order[t];
    FirstIsLowest(a.order, t);
    var s := FirstNonEmpty(a.order);
    assert Oldest(a.order, s) in a.order[s];
  }

  lemma StepConsistent<K(!new), V>(cfg: Config<K>, a: View<K, V>, e: Event<K, V>)
    requires |a.order| == cfg.shards && Consistent(a, cfg.hash)
    ensures Consistent(Step(cfg, a, e), cfg.hash)
  {
    match e
    case Get(k) =>
      if k in a.vals {
        UsedConsistent(cfg.hash, a, k);
      }
    case Put(k, v) =>
      if k in a.vals {
        var a' := a.(vals := a.vals[k := v]);
        assert a'.vals.Keys == a.vals.Keys;
        UsedConsistent(cfg.hash, a', k);
      } else if |a.vals.Keys| < cfg.capacity {
        InsertedConsistent(cfg.hash, a, k, v);
      } else if cfg.capacity > 0 {
        VictimStored(cfg.hash, a);
        DroppedConsistent(cfg.hash, a, Victim(a).value);
        InsertedConsistent(cfg.hash, Dropped(a, FirstNonEmpty(a.order), Victim(a).value), k, v);
      }
    case Remove(k) => DroppedConsistent(cfg.hash, a, k);
    case Clear =>
  }

  // ---------------------------------------------------------------- conservation

  ghost function Run<K(!new), V>(cfg: Config<K>, events: seq<Event<K, V>>): (b: View<K, V>)
    requires cfg.shards > 0
    ensures |b.order| == cfg.shards
  {
    if events == [] then View(seq(cfg.shards, i => []), map[])
    else Step(cfg, Run(cfg, events[..|events| - 1]), events[|events| - 1])
  }

  /** What happened since the last `clear`. */
  datatype Tally = Tally(inserted: nat, evicted: nat, removed: nat)

  ghost function Count<K(!new), V>(cfg: Config<K>, a: View<K, V>, t: Tally, e: Event<K, V>): Tally {
    match e
    case Get(_) => t
    case Put(k, _) =>
      if k in a.vals || cfg.capacity == 0 then t
      else if |a.vals.Keys| < cfg.capacity then t.(inserted := t.inserted + 1)
      else t.(inserted := t.inserted + 1, evicted := t.evicted + 1)
    case Remove(k) => if k in a.vals then t.(removed := t.removed + 1) else t
    case Clear => Tally(0, 0, 0)
  }

  ghost function TallyOf<K(!new), V>(cfg: Config<K>, events: seq<Event<K, V>>): Tally
    requires cfg.shards > 0
  {
    if events == [] then Tally(0, 0, 0)
    else
      var front := events[..|events| - 1];
      Count(cfg, Run(cfg, front), TallyOf(cfg, front), events[|events| - 1])
  }

  /** How many more entries a `put` leaves: a known key or a full cache adds none. */
  ghost function Growth<K(!new), V>(cfg: Config<K>, a: View<K, V>, k: K): nat {
    if k in a.vals || |a.vals.Keys| == cfg.capacity then 0 else 1
  }

  lemma StepSize<K(!new), V>(cfg: Config<K>, a: View<K, V>, e: Event<K, V>)
    requires |a.order| == cfg.shards && Consistent(a, cfg.hash) && |a.vals.Keys| <= cfg.capacity
    ensures |Step(cfg, a, e).vals.Keys| <= cfg.capacity
    ensures e.Get? ==> |Step(cfg, a, e).vals.Keys| == |a.vals.Keys|
    ensures e.Put? ==> |Step(cfg, a, e).vals.Keys| == |a.vals.Keys| + Growth(cfg, a, e.key)
    ensures e.Remove? ==> |Step(cfg, a, e).vals.Keys| == |a.vals.Keys| - if e.key in a.vals then 1 else 0
    ensures e.Clear? ==> |Step(cfg, a, e).vals.Keys| == 0
  {
    match e
    case Get(k) =>
    case Put(k, v) => PutSize(cfg, a, k, v);
    case Remove(k) =>
      if k in a.vals {
        assert (a.vals - {k}).Keys == a.vals.Keys - {k};
      }
    case Clear =>
  }

  lemma PutSize<K(!new), V>(cfg: Config<K>, a: View<K, V>, k: K, v: V)
    requires |a.order| == cfg.shards && Consistent(a, cfg.hash) && |a.vals.Keys| <= cfg.capacity
    ensures |Step(cfg, a, Put(k, v)).vals.Keys| == |a.vals.Keys| + Growth(cfg, a, k)
  {
    var vals := a.vals;
    if k in vals {
      assert vals[k := v].Keys == vals.Keys;
    } else if |vals.Keys| < cfg.capacity {
      assert vals[k := v].Keys == vals.Keys + {k};
    } else if cfg.capacity > 0 {
      VictimStored(cfg.hash, a);
      ReplacedKeys(vals, Victim(a).value, k, v);
    }
  }

  lemma ReplacedKeys<K, V>(vals: map<K, V>, gone: K, k: K, v: V)
    requires gone in vals && k !in vals
    ensures |(vals - {gone})[k := v].Keys| == |vals.Keys|
  {
    assert (vals - {gone})[k := v].Keys == (vals.Keys - {gone}) + {k};
  }

  /** In every run: keys stored since the last clear = live + evicted + removed, and never more live than allowed. */
  lemma {:induction false} Conservation<K(!new), V>(cfg: Config<K>, events: seq<Event<K, V>>)
    requires cfg.shards > 0
    ensures Consistent(Run(cfg, events), cfg.hash)
    ensures var t, live := TallyOf(cfg, events), |Run(cfg, events).vals.Keys|;
            t.inserted == live + t.evicted + t.removed && live <= cfg.capacity
  {
    if events != [] {
      var front := events[..|events| - 1];
      Conservation(cfg, front);
      StepConsistent(cfg, Run(cfg, front), events[|events| - 1]);
      StepSize(cfg, Run(cfg, front), events[|events| - 1]);
    }
  }

  // ---------------------------------------------------------------- one shard: textbook LRU

  /** A textbook cache: its entries from the most to the least recently used. */
  type Textbook<K, V> = seq<(K, V)>

  ghost function Find<K, V>(t: Textbook<K, V>, k: K): Option<V> {
    if t == [] then None else if t[0].0 == k then Some(t[0].1) else Find(t[1..], k)
  }

  ghost function Erase<K, V>(t: Textbook<K, V>, k: K): Textbook<K, V> {
    if t == [] then [] else if t[0].0 == k then t[1..] else [t[0]] + Erase(t[1..], k)
  }

  ghost function TextbookStep<K, V>(capacity: nat, t: Textbook<K, V>, e: Event<K, V>): Textbook<K, V> {
    match e
    case Get(k) => if Find(t, k).Some? then [(k, Find(t, k).value)] + Erase(t, k) else t
    case Put(k, v) =>
      if Find(t, k).Some? then [(k, v)] + Erase(t, k)
      else if capacity == 0 then t
      else if |t| < capacity then [(k, v)] + t
      else [(k, v)] + if t == [] then [] else t[..|t| - 1]
    case Remove(k) => Erase(t, k)
    case Clear => []
  }

  /** The entries of the only shard. */
  ghost function Entries<K(!new), V>(order: seq<K>, vals: map<K, V>): (t: Textbook<K, V>)
    requires forall k | k in order :: k in vals
    ensures |t| == |order| && forall i | 0 <= i < |order| :: t[i] == (order[i], vals[order[i]])
  {
    seq(|order|, i requires 0 <= i < |order| => (order[i], vals[order[i]]))
  }

  lemma {:induction false} FindEntry<K(!new), V>(order: seq<K>, vals: map<K, V>, k: K)
    requires forall x | x in order :: x in vals
    ensures Find(Entries(order, vals), k) == if k in order then Some(vals[k]) else None
  {
    if order != [] {
      FindEntry(order[1..], vals, k);
      assert Entries(order, vals)[1..] == Entries(order[1..], vals);
    }
  }

  lemma {:induction false} EraseEntry<K(!new), V>(order: seq<K>, vals: map<K, V>, k: K)
    requires forall x | x in order :: x in vals
    ensures forall x | x in Without(order, k) :: x in vals
    ensures Erase(Entries(order, vals), k) == Entries(Without(order, k), vals)
  {
    if order != [] {
      EraseEntry(order[1..], vals, k);
      assert Entries(order, vals)[1..] == Entries(order[1..], vals);
    }
  }

  /** Values of other keys do not matter. */
  lemma SameEntries<K(!new), V>(order: seq<K>, a: map<K, V>, b: map<K, V>)
    requires forall k | k in order :: k in a && k in b && a[k] == b[k]
    ensures Entries(order, a) == Entries(order, b)
  {
  }

  lemma OneShard<K(!new), V>(cfg: Config<K>, a: View<K, V>)
    requires cfg.shards == 1 && |a.order| == 1 && Consistent(a, cfg.hash)
    ensures NoDup(a.order[0]) && (forall k :: k in a.order[0] <==> k in a.vals) && |a.order[0]| == |a.vals.Keys|
  {
    forall k ensures k in a.order[0] <==> k in a.vals {
      assert ShardOf(cfg.hash, k, 1) == 0;
    }
    NoDupSize(a.order[0], a.vals.Keys);
  }

  lemma {:induction false} NoDupSize<K(!new)>(s: seq<K>, keys: set<K>)
    requires NoDup(s) && forall k :: k in s <==> k in keys
    ensures |s| == |keys|
  {
    if s != [] {
      var front, k := s[..|s| - 1], s[|s| - 1];
      assert forall x :: x in s <==> x in front || x == k;
      NoDupSize(front, keys - {k});
    } else {
      assert keys == {};
    }
  }

  /** The last key goes, and the others keep their entries. */
  lemma DropLast<K(!new), V>(order: seq<K>, vals: map<K, V>, front: seq<K>, k: K)
    requires NoDup(order) && order == front + [k] && forall x | x in order :: x in vals
    ensures Without(order, k) == front && k !in front && (forall x | x in front :: x in vals)
    ensures Entries(front, vals - {k}) == Entries(order, vals)[..|front|]
  {
    assert order[|front|] == k;
    WithoutAt(order, |front|);
    assert forall i | 0 <= i < |front| :: order[i] == front[i];
    assert forall x | x in front :: x in order;
  }

  /** The view of a one-shard cache as a list of entries. */
  ghost function AsTextbook<K(!new), V>(cfg: Config<K>, a: View<K, V>): Textbook<K, V>
    requires cfg.shards == 1 && |a.order| == 1 && Consistent(a, cfg.hash)
  {
    OneShard(cfg, a);
    Entries(a.order[0], a.vals)
  }

  lemma TextbookUse<K(!new), V>(cfg: Config<K>, a: View<K, V>, k: K, v: V)
    requires cfg.shards == 1 && |a.order| == 1 && Consistent(a, cfg.hash) && k in a.vals
    ensures Consistent(Updated(a, 0, k, v), cfg.hash)
    ensures AsTextbook(cfg, Updated(a, 0, k, v)) == [(k, v)] + Erase(AsTextbook(cfg, a), k)
  {
    StepConsistent(cfg, a, Put(k, v));
    OneShard(cfg, a);
    OneShard(cfg, Updated(a, 0, k, v));
    EntriesUsed(a.order[0], a.vals, k, v);
  }

  lemma EntriesUsed<K(!new), V>(order: seq<K>, vals: map<K, V>, k: K, v: V)
    requires NoDup(order) && forall x | x in order :: x in vals
    ensures forall x | x in [k] + Without(order, k) :: x in vals[k := v]
    ensures Entries([k] + Without(order, k), vals[k := v]) == [(k, v)] + Erase(Entries(order, vals), k)
  {
    EraseEntry(order, vals, k);
    WithoutMembers(order, k);
    SameEntries(Without(order, k), vals, vals[k := v]);
    EntriesCons(Without(order, k), vals[k := v], k);
  }

  lemma EntriesCons<K(!new), V>(rest: seq<K>, vals: map<K, V>, k: K)
    requires k in vals && forall x | x in rest :: x in vals
    ensures forall x | x in [k] + rest :: x in vals
    ensures Entries([k] + rest, vals) == [(k, vals[k])] + Entries(rest, vals)
  {
  }

  lemma TextbookAdd<K(!new), V>(cfg: Config<K>, a: View<K, V>, k: K, v: V)
    requires cfg.shards == 1 && |a.order| == 1 && Consistent(a, cfg.hash) && k !in a.vals
    ensures Consistent(Inserted(a, 0, k, v), cfg.hash)
    ensures AsTextbook(cfg, Inserted(a, 0, k, v)) == [(k, v)] + AsTextbook(cfg, a)
  {
    InsertedConsistent(cfg.hash, a, k, v);
    OneShard(cfg, a);
    OneShard(cfg, Inserted(a, 0, k, v));
    SameEntries(a.order[0], a.vals, a.vals[k := v]);
    EntriesCons(a.order[0], a.vals[k := v], k);
  }

  lemma TextbookErase<K(!new), V>(cfg: Config<K>, a: View<K, V>, k: K)
    requires cfg.shards == 1 && |a.order| == 1 && Consistent(a, cfg.hash)
    ensures Consistent(Dropped(a, 0, k), cfg.hash)
    ensures AsTextbook(cfg, Dropped(a, 0, k)) == Erase(AsTextbook(cfg, a), k)
  {
    DroppedConsistent(cfg.hash, a, k);
    var order, b := a.order[0], Dropped(a, 0, k);
    OneShard(cfg, a);
    OneShard(cfg, b);
    EraseEntry(order, a.vals, k);
    SameEntries(Without(order, k), a.vals, b.vals);
  }

  /** Erasing the last entry. */
  lemma EraseLast<K(!new), V>(cfg: Config<K>, a: View<K, V>)
    requires cfg.shards == 1 && |a.order| == 1 && Consistent(a, cfg.hash) && |a.vals.Keys| > 0
    ensures Victim(a).Some? && FirstNonEmpty(a.order) == 0 && Victim(a).value in a.vals
    ensures AsTextbook(cfg, a) != []
    ensures Erase(AsTextbook(cfg, a), Victim(a).value) == AsTextbook(cfg, a)[..|AsTextbook(cfg, a)| - 1]
  {
    VictimStored(cfg.hash, a);
    OneShard(cfg, a);
    var order := a.order[0];
    var front, k := order[..|order| - 1], order[|order| - 1];
    DropLast(order, a.vals, front, k);
    EraseEntry(order, a.vals, k);
    SameEntries(front, a.vals, a.vals - {k});
  }

  /** With one shard every step is the textbook step. */
  lemma TextbookRefined<K(!new), V>(cfg: Config<K>, a: View<K, V>, e: Event<K, V>)
    requires cfg.shards == 1 && |a.order| == 1 && Consistent(a, cfg.hash) && |a.vals.Keys| <= cfg.capacity
    ensures Consistent(Step(cfg, a, e), cfg.hash)
    ensures AsTextbook(cfg, Step(cfg, a, e)) == TextbookStep(cfg.capacity, AsTextbook(cfg, a), e)
  {
    StepConsistent(cfg, a, e);
    OneShard(cfg, a);
    if e.Clear? {
      OneShard(cfg, Step(cfg, a, e));
      assert AsTextbook(cfg, Step(cfg, a, e)) == [];
    } else {
      FindEntry(a.order[0], a.vals, e.key);
      TextbookKeyed(cfg, a, e);
    }
  }

  lemma TextbookKeyed<K(!new), V>(cfg: Config<K>, a: View<K, V>, e: Event<K, V>)
    requires cfg.shards == 1 && |a.order| == 1 && Consistent(a, cfg.hash) && |a.vals.Keys| <= cfg.capacity && !e.Clear?
    requires Consistent(Step(cfg, a, e), cfg.hash)
    requires Find(AsTextbook(cfg, a), e.key) == if e.key in a.vals then Some(a.vals[e.key]) else None
    requires |AsTextbook(cfg, a)| == |a.vals.Keys|
    ensures AsTextbook(cfg, Step(cfg, a, e)) == TextbookStep(cfg.capacity, AsTextbook(cfg, a), e)
  {
    match e
    case Get(k) =>
      if k in a.vals {
        TextbookUse(cfg, a, k, a.vals[k]);
        assert a.vals[k := a.vals[k]] == a.vals;
      }
    case Put(k, v) =>
      if k in a.vals {
        TextbookUse(cfg, a, k, v);
      } else if |a.vals.Keys| < cfg.capacity {
        TextbookAdd(cfg, a, k, v);
      } else if cfg.capacity > 0 {
        EraseLast(cfg, a);
        TextbookErase(cfg, a, Victim(a).value);
        TextbookAdd(cfg, Dropped(a, 0, Victim(a).value), k, v);
      }
    case Remove(k) =>
      TextbookErase(cfg, a, k);
      if k !in a.vals {
        EraseAbsent(AsTextbook(cfg, a), k);
      }
  }

  lemma {:induction false} EraseAbsent<K, V>(t: Textbook<K, V>, k: K)
    requires Find(t, k).None?
    ensures Erase(t, k) == t
  {
    if t != [] {
      EraseAbsent(t[1..], k);
    }
  }

  ghost function TextbookRun<K, V>(capacity: nat, events: seq<Event<K, V>>): Textbook<K, V> {
    if events == [] then []
      else TextbookStep(capacity, TextbookRun(capacity, events[..|events| - 1]), events[|events| - 1])
  }

  /** Every run of a one-shard cache is a run of the textbook cache. */
  lemma {:induction false} OneShardIsTextbook<K(!new), V>(cfg: Config<K>, events: seq<Event<K, V>>)
    requires cfg.shards == 1
    ensures Consistent(Run(cfg, events), cfg.hash)
    ensures AsTextbook(cfg, Run(cfg, events)) == TextbookRun(cfg.capacity, events)
  {
    if events == [] {
      OneShard(cfg, Run(cfg, events));
    } else {
      var front := events[..|events| - 1];
      OneShardIsTextbook(cfg, front);
      Conservation(cfg, front);
      TextbookRefined(cfg, Run(cfg, front), events[|events| - 1]);
    }
  }
}
