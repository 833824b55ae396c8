/** Runs of the cache class of crates/opsense-mlib/src/lru.rs are the runs that the theorems speak about. */
module LruReplay {
  import opened Lru
  import opened LruArena
  import opened LruList
  import opened LruRuns
  import opened LruSteps
  import opened LruView
  import opened Wrappers

  /** One call on the cache; its view makes the corresponding step. */
  method Perform<K(!new, ==), V>(cache: LruCache<K, V>, cfg: Config<K>, e: Event<K, V>)
    requires cache.Valid() && cfg == Config(cache.hash, cache.shards.Length, cache.caching.Length) && cfg.shards > 0
    modifies cache, cache.caching, cache.shards
    ensures cache.Valid() && Viewable(cache.Arena(), cache.lists) && Viewable(old(cache.Arena()), old(cache.lists))
    ensures |old(cache.State()).order| == cfg.shards && cache.State() == Step(cfg, old(cache.State()), e)
  {
    RepViewable(cache.Arena(), cache.hash, cache.lists, cache.owner, {});
    ghost var before := cache.State();
    match e {
      case Get(k) =>
        var r := cache.Get(k);
      case Put(k, v) =>
        var evicted := cache.Put(k, v);
        PutIsStep(cfg, before, k, v, evicted, cache.State());
      case Remove(k) =>
        var r := cache.Remove(k);
      case Clear =>
        var n := cache.Clear();
    }
  }

  /** Any run of calls on a new cache: its final view is that of the run. */
  method Replay<K(!new, ==), V>(capacity: nat, shards: nat, hash: Hash<K>, events: seq<Event<K, V>>)
    returns (cache: LruCache<K, V>)
    requires shards > 0 && capacity <= NULL
    ensures fresh(cache) && cache.Valid() && Viewable(cache.Arena(), cache.lists)
    ensures cache.State() == Run(Config(hash, shards, capacity), events)
  {
    cache := new LruCache<K, V>(capacity, shards, hash);
    ghost var cfg := Config(hash, shards, capacity);
    for i := 0 to |events|
      invariant fresh(cache) && fresh(cache.caching) && fresh(cache.shards)
      invariant cache.Valid() && Viewable(cache.Arena(), cache.lists)
      invariant cfg == Config(cache.hash, cache.shards.Length, cache.caching.Length)
      invariant cache.State() == Run(cfg, events[..i])
    {
      Perform(cache, Config(hash, shards, capacity), events[i]);
      assert events[..i + 1][..i] == events[..i];
    }
    assert events[..|events|] == events;
  }
}
