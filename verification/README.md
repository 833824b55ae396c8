# Verified models of Opsense algorithms

A Dafny 4.11 project that models the algorithmic core of Opsense and proves what it is relied on
for. `dafny verify dfyconfig.toml` checks everything. Seven parts, each with its main theorem:

* **Pattern matcher** (`AhoCorasick`, `Words`): the automaton that `optimize` builds in place
  accepts exactly the samples that contain a registered non-empty pattern. The failure link of a
  state is proved to be the longest proper suffix of its path in the trie; both loops that follow
  failures without reading input terminate.
* **Substring index** (`Kmp`, `RadixTree`, `RadixWalk`, `RadixInsert`, `RadixSubtree`, `RadixReroot`,
  `RadixDfs`, `RadixOrder`, `RadixSearch`, `SearchIndex`): a compressed trie with one root per shard, updated
  in place by insert, split and extend, refines a first-wins map; prefix search is exact from every node;
  substring search is sound, returns nothing twice, exactly as much as was found or the limit allows, and
  finds something if and only if some stored key contains the pattern; the walk terminates, can be
  interrupted and resumed anywhere, and returns what the plain recursive search returns, in its order. One
  invariant carries all of it: a word is owned by the node in whose prefix it ends, and no word is owned
  twice.
* **Arena cache** (`LruList`, `LruArena`, `LruView`, `LruSteps`, `Lru`, `LruRuns`, `LruReplay`): index-linked
  doubly linked lists, a free list and a key map over one shared arena refine per-shard recency
  lists; who is evicted and when is exact; one shard is textbook LRU; every stored key
  is live, evicted or removed.
* **Time-series station** (`Observations`, `StationLog`, `StationBlocks`, `StationTidy`, `StationRuns`,
  `StationEviction`, `Station`): the blocks in that cache agree with a plain log, stably sorted by time and
  without repeated identities, over every run of batches, exactly as long as its blocks fit; for which
  windows ingestion and queries lose nothing, when a strict query answers, and what ingesting a batch again
  changes, each exactly. When blocks do not fit: which block goes for which, that new records are always
  taken, and that answers are the windows over the blocks present, still sorted and free of repetitions.
* **Gossip** (`Gossip`, `GossipNetwork`, `GossipRestart`, `Detector`): last-writer-wins maps with Lamport
  versions in a network that loses, repeats, delays, reorders and relays messages, and whose nodes restart,
  converge; when versions are unambiguous and a node's own entry is safe is exact; the failure
  detector's states are characterised by what was heard and reported before.
* **Id generator** (`Snowflake`): for any number of threads, clock readings and failed swaps, ids are
  unique exactly when the readings lie within 2^40 ms of each other and below 2^52 ms.
* **Two transformations** (`Placeholders`, `PlaceholderReading`, `Sieve`): rewriting numbered SQL placeholders
  keeps the meaning exactly when there is no unquoted `?`, and references are the decimal numbers; the grid
  sieve never underflows and stops exactly where its rule, stated for the grids themselves, says.

Classes model what the program updates in place; their methods are specified by functions and
predicates on values, and the theorems about whole runs are lemmas about those. Storage that the
program reaches through a trait is a field of the class, a transaction one assignment, and a clock,
a hash function, a deadline or a failing compare-and-swap a parameter.

Where the code and its comments disagree, or a promise holds only under a condition, the model follows
the code:

* `report_missing` is described as counting peers; it counts reports, by anybody who is not known to be
  dead. One reporter can kill a peer (`Detector.OneReporterKills`); the quorum counts reporters
  exactly when it is at most 1 (`Detector.QuorumExactly`).
* `obs_identity` is described as covering everything that equality compares. It compares values by
  their bits and labels by their joined text: equal zeros are kept apart, NaNs are merged, labels can
  collide. `Observations.IdentityExactly` says for which observations it is equality.
* Batches are fetched again routinely, which deduplication is for. That changes no `query_recent`
  (`StationRuns.ReingestKeepsRecent`), but it can change a strict query
  (`StationRuns.ReingestChangesStrict`, `StationRuns.ReingestStrictExactly`).
* Block numbers are described as rounded down; they are truncated toward zero, so times below 0
  can be lost (`StationRuns.NegativeTimeLost`, `StationRuns.TakenExactly`, `StationRuns.QueryRecentExactly`).
* A search with a depth is described as returning only keys of at most depth + 1 elements. It looks at the
  length stored for the record, which a later key of the same record overwrites
  (`SearchIndex.DepthOverrun`); `SearchIndex.DepthExactly` says when the promise holds.
* The records of a subtree are described as collected in pre-order. The record of a node comes before its
  children and again after each of them (`RadixOrder.WalkIsRecursive`); `search` drops the repetitions.
* The saturating clock is described as protecting the order of versions. If a node whose own entry has
  the largest version publishes another info, nodes that merged the same publications can differ
  (`GossipNetwork.SaturatedRunDiverges`); `GossipNetwork.UnambiguousExactly` says for which runs versions
  are unambiguous.
* A restarted node starts again at clock 0. If it publishes before it has caught up with its own earlier
  publications, its older entry comes back and replaces the new one (`GossipRestart.RestartOverwritten`);
  `GossipRestart.SoundExactly` and `GossipRestart.FreshByClock` give the condition on the clock.
* Unique ids are promised without a bound on the clock; `Snowflake.DistinctExactly` gives the bound.

## Model

| member | source | states |
|---|---|---|
| `AhoCorasick.AhoCorasick.constructor` | crates/opsense-mlib/src/ahocorasick.rs:52-67 | a valid matcher without patterns, not optimized |
| `AhoCorasick.AhoCorasick.Add` | crates/opsense-mlib/src/ahocorasick.rs:96-109 | an empty or known pattern changes nothing; a new one is registered and invalidates the automaton |
| `AhoCorasick.AhoCorasick.Optimize` | crates/opsense-mlib/src/ahocorasick.rs:128-226 | from any valid state, the automaton is built: the trie spells exactly the patterns and every failure link is the longest proper suffix |
| `AhoCorasick.AhoCorasick.InsertPattern` | crates/opsense-mlib/src/ahocorasick.rs:140-180 | walking and growing the trie along one more pattern keeps the trie invariant and marks its last state |
| `AhoCorasick.GrowKeepsShape` | crates/opsense-mlib/src/ahocorasick.rs:150-171 | a new state keeps the trie a trie: edges and parents agree and paths are pairwise different |
| `AhoCorasick.AhoCorasick.BuildFailures` | crates/opsense-mlib/src/ahocorasick.rs:181-223 | the breadth-first loop terminates with all failure links right |
| `AhoCorasick.AhoCorasick.LinkOf` | crates/opsense-mlib/src/ahocorasick.rs:184-217 | the link computed for a state, given all shallower ones, is the longest proper suffix of its path |
| `AhoCorasick.FrontierStep` | crates/opsense-mlib/src/ahocorasick.rs:181-222 | the queue invariant: every state shallower than the front is finished |
| `AhoCorasick.StepFound` | crates/opsense-mlib/src/ahocorasick.rs:246-276 | if the current state has an edge for the next block, its target is the longest suffix after that block |
| `AhoCorasick.StepFail` | crates/opsense-mlib/src/ahocorasick.rs:270-273 | following a failure link skips no candidate suffix |
| `AhoCorasick.StepRoot` | crates/opsense-mlib/src/ahocorasick.rs:236-245 | at the root without a matching input the longest suffix is empty |
| `AhoCorasick.AhoCorasick.Probe` | crates/opsense-mlib/src/ahocorasick.rs:280-288 | the walk down the failure chain finds an output exactly when some pattern ends here |
| `AhoCorasick.AhoCorasick.Scan` | crates/opsense-mlib/src/ahocorasick.rs:237-294 | the scanning loop terminates and reports whether an output ends anywhere in the sample |
| `AhoCorasick.CleanIffNone` | crates/opsense-mlib/src/ahocorasick.rs:228-297 | outputs end in the sample if and only if a registered pattern is a contiguous substring of it |
| `AhoCorasick.AhoCorasick.Similar` | crates/opsense-mlib/src/ahocorasick.rs:228-297 | true if and only if the matcher is optimized and some registered pattern occurs in the sample |
| `AhoCorasick.MatchAny` | crates/opsense-mlib/src/ahocorasick.rs:52-297 | new, add each, optimize, similar: true if and only if some given non-empty pattern occurs in the sample |
| `Kmp.Lps` | crates/opsense-mlib/src/search.rs:73-87 | each entry is the length of the longest proper border of that prefix of the pattern |
| `Kmp.KmpMatch` | crates/opsense-mlib/src/search.rs:96-132 | found exactly when the pattern is completed, otherwise the longest partial match at the end of the data |
| `Kmp.KmpMatcher` | crates/opsense-mlib/src/search.rs:143-196 | the callback computes the function that `Kmp.KmpContinued`, `Kmp.KmpFresh` and `Kmp.KmpOrder` determine |
| `RadixSearch.AskKmpMatcher` | crates/opsense-mlib/src/search.rs:143-196 | building the border table and asking the callback gives the matcher that the search runs with |
| `Kmp.KmpFresh` | crates/opsense-mlib/src/search.rs:143-196 | at a fresh node: found if and only if the prefix contains the pattern, else the continuations are exactly the lengths of pattern prefixes that end the node prefix |
| `Kmp.KmpSound` | crates/opsense-mlib/src/search.rs:143-196 | for any position: a find is an occurrence in path plus prefix, and each continuation is matched by their end |
| `Kmp.KmpAdvance` | crates/opsense-mlib/src/search.rs:143-196 | a started match that goes on through the prefix is found or continued |
| `Kmp.KmpContinued` | crates/opsense-mlib/src/search.rs:143-190 | at a node entered with a partial match: if the rest of the pattern fits into the prefix, found if and only if the prefix begins with it, without continuations; otherwise not found, and the one continuation is the longest overlap of the pattern with the matched part and the prefix, none if that is empty |
| `Kmp.KmpOrder` | crates/opsense-mlib/src/search.rs:158-190 | at a node entered without one: first the longest overlaps of the restarts, by position, then that of the whole prefix if it is shorter than the pattern; no other |
| `RadixTree.NextOwner` | crates/opsense-mlib/src/radix.rs:262-318 | a walk along a key has at most one way on: the node itself or one of its children |
| `RadixTree.CutOk` | crates/opsense-mlib/src/radix.rs:856-909 | cutting a prefix in two keeps the trie well formed |
| `RadixTree.AddChildOk` | crates/opsense-mlib/src/radix.rs:913-919 | a new leaf where no word continues keeps the trie well formed |
| `RadixTree.AddRootOk` | crates/opsense-mlib/src/radix.rs:319-353 | a root for a shard that had none keeps the trie well formed |
| `RadixTree.UsizeExactly` | crates/opsense-mlib/src/radix.rs:54-60 | an element counts as the 64-bit word that differs from it by a multiple of 2^64 |
| `RadixTree.ShardExactly` | crates/opsense-mlib/src/radix.rs:171-174 | its shard is the remainder of that word |
| `RadixWalk.MissInside` | crates/opsense-mlib/src/radix.rs:270-287 | after a mismatch inside a prefix no stored path begins with the key up to the mismatch |
| `RadixWalk.MissChild` | crates/opsense-mlib/src/radix.rs:299-315 | likewise when no child starts with the next element |
| `RadixInsert.SplitGood` | crates/opsense-mlib/src/radix.rs:856-909 | a split adds exactly the new key to the stored map, keeps all old keys and leaves no leaf without record |
| `RadixInsert.ExtendGood` | crates/opsense-mlib/src/radix.rs:913-919 | an extension adds exactly the new key |
| `RadixInsert.RecordGood` | crates/opsense-mlib/src/radix.rs:286-297 | setting the record of an existing node adds exactly its path |
| `RadixInsert.RootGood` | crates/opsense-mlib/src/radix.rs:319-353 | a new root, with a leaf for a longer key, adds exactly the new key |
| `RadixSubtree.PrefixIsSubtree` | crates/opsense-mlib/src/radix.rs:577-600 | the nodes whose path begins with a word are exactly those below the node that owns it |
| `RadixSubtree.SweepStep` | crates/opsense-mlib/src/radix.rs:620-640 | taking a node off the collection stack and pushing its children visits every node below once |
| `RadixReroot.RerootGood` | crates/opsense-mlib/src/radix.rs:402-421 | what lies below a node is a trie with that node as its root, and stores exactly the keys through it, without the path before it |
| `RadixReroot.KeysBelow` | crates/opsense-mlib/src/radix.rs:537-556 | the keys of that trie: the rests of the stored keys of the shard that extend the path of the node, with their records |
| `RadixDfs.StepDecreases` | crates/opsense-mlib/src/radix.rs:708-842 | every step of an unfinished walk makes progress, for any tree and any matcher |
| `RadixDfs.Terminates` | crates/opsense-mlib/src/radix.rs:669-846 | the walk finishes after finitely many steps with the records of the uninterrupted run |
| `RadixDfs.ResumeAnywhere` | crates/opsense-mlib/src/radix.rs:653-721 | stopping after any number of steps and resuming from the checkpoint yields the same record sequence |
| `RadixDfs.ResumeManyTimes` | crates/opsense-mlib/src/radix.rs:653-721 | likewise for any number of interruptions |
| `RadixOrder.WalkIsRecursive` | crates/opsense-mlib/src/radix.rs:669-846 | for any tree and matcher, the resumable walk over explicit stacks returns the records of the first subtree that the plain recursive search hits, by continuation and then by child, in its order |
| `RadixSearch.CollectsSubtree` | crates/opsense-mlib/src/radix.rs:821-841 | the collecting phase returns exactly the records below its root |
| `RadixSearch.SearchStepSound` | crates/opsense-mlib/src/radix.rs:723-820 | every frame's path ends with the matched part of the pattern, in every step |
| `RadixSearch.SearchStepPromise` | crates/opsense-mlib/src/radix.rs:723-820 | no step loses an occurrence that starts in the first node, before the first hit |
| `RadixSearch.SearchOutcome` | crates/opsense-mlib/src/radix.rs:669-846 | the walk returns nothing, or the records below one node whose path contains the pattern; with an occurrence ahead, the latter |
| `RadixSearch.DfsSound` | crates/opsense-mlib/src/radix.rs:669-846 | every record returned was stored under a key that goes through the first node and contains the pattern from there on |
| `RadixSearch.DfsFinds` | crates/opsense-mlib/src/radix.rs:669-846 | an occurrence that starts in the prefix of the first node makes the walk return records |
| `RadixSearch.OccurrenceStarts` | crates/opsense-mlib/src/search.rs:409-460 | every occurrence in a stored key starts in the prefix of a node that the key goes through |
| `RadixSearch.OccurrenceFound` | crates/opsense-mlib/src/search.rs:409-460 | from that node, which carries the first element of the pattern, the walk finds records |
| `SearchIndex.Index.constructor` | crates/opsense-mlib/src/search.rs:225-263 | an empty valid index; zero shards count as one |
| `SearchIndex.Index.Insert` | crates/opsense-mlib/src/radix.rs:228-354 | errors for the reserved index and the empty key; a stored key is reported and nothing changes; a new key is added to the map and to nothing else, the returned node carries the record with the key as its path, and the returned length is what was read of the key before the place where it was put |
| `SearchIndex.Index.SplitAt` | crates/opsense-mlib/src/radix.rs:856-909 | the split transaction adds the key, keeps the invariant and records the elements of the new leg |
| `SearchIndex.Index.Match` | crates/opsense-mlib/src/radix.rs:402-466 | from the root of the shard or from any given node: the record of the key among the stored keys that go through that node, without the path before it; not found otherwise |
| `SearchIndex.Index.SearchPrefix` | crates/opsense-mlib/src/radix.rs:537-604 | likewise: each stored key through the node that begins with a non-empty prefix once, with its record, and nothing else; nothing for the empty prefix |
| `SearchIndex.Index.CollectAll` | crates/opsense-mlib/src/radix.rs:613-642 | the stack loop lists every key of the subtree exactly once |
| `SearchIndex.Index.SearchDfs` | crates/opsense-mlib/src/radix.rs:669-846 | the loops compute the step machine: not found for the empty pattern, nothing for an empty shard, a checkpoint after the deadline, else the finished records |
| `SearchIndex.InterruptedWalk` | crates/opsense-mlib/src/radix.rs:708-721 | a walk that runs out of its budget returns no records, has made progress unless it had no step at all, and its checkpoint leads to the answer of the uninterrupted walk |
| `SearchIndex.InsertedCovered` | crates/opsense-mlib/src/search.rs:320-380 | after the waiting split events and the new node's elements are indexed, every node is a candidate for each element of its prefix |
| `SearchIndex.Index.InsertChain` | crates/opsense-mlib/src/search.rs:305-380 | the four outcomes; the stored map and the key lengths change only on success; the index is valid again |
| `SearchIndex.Index.Search` | crates/opsense-mlib/src/search.rs:399-491 | for any depth, offset and limit: as many of the records that the candidates from the offset on return as the limit allows, and of these, in order, those whose stored length is within the depth. Every result was stored under a key that goes through a node from the offset on and contains the pattern from there on, none twice, some key of it within the depth; all its keys within the depth if stored lengths reach the keys. Without a depth and with a limit other than 0, success if the pattern starts in some stored key in the prefix of a node from the offset on, and without an offset if and only if some stored key contains the pattern |
| `SearchIndex.SearchComplete` | crates/opsense-mlib/src/search.rs:409-491 | without a depth the number of results is the smaller of the limit and the number of records found; nothing is found only if the pattern starts in no stored key in the prefix of a node from the offset on |
| `SearchIndex.DepthExactly` | crates/opsense-mlib/src/search.rs:385-491 | for all patterns and depths every matching key of a returned record has at most depth + 1 elements, if and only if no stored key is longer than the length stored for its record |
| `SearchIndex.DepthOverrun` | crates/opsense-mlib/src/search.rs:305-491 | two insertions under one record, after which a search of depth 1 returns a record whose only matching key has four elements |
| `SearchIndex.Replay` | crates/opsense-mlib/src/search.rs:305-380 | any run of insertions on any number of shards ends in a valid index that stores the first-wins map |
| `SearchIndex.FirstWinsIsFirst` | crates/opsense-mlib/src/radix.rs:286-297 | that map holds for each key the record of the first valid insertion, and no other key |
| `SearchIndex.SiblingsDiffer` | crates/opsense-mlib/src/radix.rs:299-315 | in every valid index children have non-empty prefixes with different first elements |
| `LruList.UnlinkChain` | crates/opsense-mlib/src/lru.rs:859-874 | cutting a node out leaves a doubly linked list of the others, with consistent ends, and writes nothing else |
| `LruList.MoveChain` | crates/opsense-mlib/src/lru.rs:876-907 | moving a node to the front of its list |
| `LruList.PushChain` | crates/opsense-mlib/src/lru.rs:494-504 | putting a detached node in front, also of an empty list |
| `LruArena.PopFreeOk` | crates/opsense-mlib/src/lru.rs:764-784 | taking a free node keeps the partition of the arena, with that node in no list |
| `LruArena.PushFreeOk` | crates/opsense-mlib/src/lru.rs:788-802 | returning a node to the free list restores the partition |
| `LruArena.DetachOk` | crates/opsense-mlib/src/lru.rs:834-856 | a node that gives up its key leaves its list and the key map |
| `LruArena.AttachOk` | crates/opsense-mlib/src/lru.rs:481-505 | a detached node with a new key joins the shard of that key and the key map |
| `LruArena.TouchOk` | crates/opsense-mlib/src/lru.rs:432-446 | using a node keeps the invariant |
| `LruArena.ShardExactly` | crates/opsense-mlib/src/lru.rs:276-280 | the shard is below their number and what the hash is more is a multiple of it |
| `LruView.RepConsistent` | crates/opsense-mlib/src/lru.rs:73-79 | the key map is a bijection onto the listed nodes, each in the shard its key hashes to |
| `Lru.LruCache.constructor` | crates/opsense-mlib/src/lru.rs:211-273 | an empty cache whose whole arena is free |
| `Lru.LruCache.UnlinkInsideLock` | crates/opsense-mlib/src/lru.rs:859-874 | the array and the shard ends after unlinking |
| `Lru.LruCache.MoveToFrontInsideLock` | crates/opsense-mlib/src/lru.rs:876-907 | the array and the shard ends after moving to the front |
| `Lru.LruCache.AcquireNode` | crates/opsense-mlib/src/lru.rs:812-855 | none only without capacity; a free node while there is room; otherwise the node of the least recently used key of the lowest-numbered non-empty shard |
| `Lru.LruCache.Get` | crates/opsense-mlib/src/lru.rs:432-446 | the value of a stored key, which becomes the most recently used of its shard |
| `Lru.LruCache.Put` | crates/opsense-mlib/src/lru.rs:448-513 | update, insertion or replacement; eviction exactly when the key is new and the live count equals the capacity, and of whom |
| `Lru.LruCache.Remove` | crates/opsense-mlib/src/lru.rs:635-662 | the value of the key, which leaves its shard list; its node is free again |
| `Lru.LruCache.Clear` | crates/opsense-mlib/src/lru.rs:571-598 | the state after construction; returns the number of entries |
| `LruRuns.PutIsStep` | crates/opsense-mlib/src/lru.rs:448-513 | the promise of `Put` determines the next view; a key is evicted if and only if the put key is new and a non-zero capacity is used up |
| `LruRuns.Conservation` | crates/opsense-mlib/src/lru.rs:448-662 | in every run, at any capacity: keys stored since the last clear = live + evicted + removed, and never more live than the capacity |
| `LruRuns.OneShardIsTextbook` | crates/opsense-mlib/src/lru.rs:448-907 | every run with one shard, at any capacity, is a run of a textbook LRU list |
| `LruReplay.Perform` | crates/opsense-mlib/src/lru.rs:432-662 | each call on the cache is the step of the runs above |
| `LruReplay.Replay` | crates/opsense-mlib/src/lru.rs:166-662 | any run of calls on a new cache ends in the view of that run |
| `StationLog.SortSorted` | crates/opsense-core/src/station.rs:758-758 | the sorted items are sorted and a permutation |
| `StationLog.SortStable` | crates/opsense-core/src/station.rs:758-758 | items of equal time keep their order |
| `StationLog.NormAgain` | crates/opsense-core/src/station.rs:723-761 | sorting and deduplicating in instalments equals doing it once on everything |
| `StationLog.WindowNorm` | crates/opsense-core/src/station.rs:726-761 | the log of a time window is the window of the log |
| `StationLog.DedupFirst` | crates/opsense-core/src/station.rs:758-761 | deduplication keeps exactly the first observation of each identity, in order |
| `Observations.IdentityExactly` | crates/opsense-core/src/station.rs:346-369 | having the same identity is being equal, for an observation against every other, if and only if its value is neither a zero nor NaN and it has no label, or one without `=` in its name and value |
| `Observations.IdentityCollides` | crates/opsense-core/src/station.rs:354-359 | one label with an `=` in its name and another with it in its value have one identity |
| `Observations.TwoLabelsCollide` | crates/opsense-core/src/station.rs:354-359 | two labels and one label whose value contains the separator have one identity |
| `Observations.UnreadableCollides` | crates/opsense-core/src/station.rs:354-359 | every set of labels whose text has more than one `=` shares that text with another set |
| `Observations.PlainIdentity` | crates/opsense-core/src/station.rs:353-369 | among observations whose label names have no `=` and values no separator, identities tell any number of labels apart |
| `Observations.ZerosKeptApart` | crates/opsense-core/src/station.rs:365-365 | 0.0 and -0.0 are equal and have different identities |
| `StationLog.EqualZerosKept` | crates/opsense-core/src/station.rs:758-761 | a log keeps both zeros, although they are equal |
| `StationLog.RepeatedNaNDropped` | crates/opsense-core/src/station.rs:758-761 | a log drops a repeated NaN, although it is equal to nothing |
| `StationBlocks.IngestRound` | crates/opsense-core/src/station.rs:722-781 | while the blocks of the longer log fit, one block's turn evicts nothing and leaves exactly that block with its new items, range and update time |
| `StationBlocks.UpdateOutcome` | crates/opsense-core/src/station.rs:693-782 | after a batch the blocks agree with the longer log if and only if its blocks fit |
| `StationBlocks.CollectStep` | crates/opsense-core/src/station.rs:645-673 | appending the next block's part extends the collected window |
| `StationTidy.WithinTidy` | crates/opsense-core/src/station.rs:722-781 | one block's turn, whatever was evicted for it, leaves every block sorted, without repeated identities and taken from its part of the log |
| `StationTidy.RoundTidy` | crates/opsense-core/src/station.rs:645-673 | appending the part of the next block, which may be missing, keeps the answer sorted, without repeated identities, from the log and inside the window |
| `StationEviction.TurnExactly` | crates/opsense-core/src/station.rs:722-781 | one block's turn: without records for a new block, or without capacity, nothing changes; a known block, or any while there is room, is replaced or added and all others stay; for a new block in a full cache exactly the least recently used block of the lowest non-empty shard goes |
| `StationEviction.TurnRecent` | crates/opsense-core/src/station.rs:780-780 | the block that had its turn is the most recently used of its shard |
| `StationEviction.LastKept` | crates/opsense-core/src/station.rs:722-781 | however full the cache, the last block of a batch that has records in it is present afterwards, with the new update time and with its earlier items and the new records sorted and deduplicated; the earlier items are lost only if an earlier block of the same batch has evicted it, and not if that batch has no records in earlier blocks |
| `StationEviction.PresentNext` | crates/opsense-core/src/station.rs:638-672 | appending the part of the next block extends the window over the blocks present |
| `Station.RetainFirst` | crates/opsense-core/src/station.rs:758-761 | the retain loop keeps the first item of each identity |
| `Station.TimeseriesStation.IngestBlock` | crates/opsense-core/src/station.rs:722-781 | a block is read and gets its items, covered range and update time; it is stored as the most recent one, for which another may have to go, unless it is new and empty |
| `Station.TimeseriesStation.UpdateRange` | crates/opsense-core/src/station.rs:693-782 | the log grows by the records in the blocks of the declared window; the cache afterwards, with the recency of its blocks, is that of one turn after another, whatever had to be evicted; the blocks agree with the log if and only if they fit, and then every block's items, covered range and update time are given; in any case every block is sorted, without repeated identities and taken from its part of the log |
| `Station.TimeseriesStation.QueryRecent` | crates/opsense-core/src/station.rs:616-675 | in any case the window over the blocks present among those visited, sorted, without repeated identities and from the log; while the blocks fit, the window of the log; no block changes, and the visited ones are read in order |
| `Station.TimeseriesStation.QueryRange` | crates/opsense-core/src/station.rs:554-598 | an answer if and only if every block is present and covers its part; then the window over these blocks, sorted, without repeated identities and from the log, and while the blocks fit the window of the log; no block changes, and blocks are read up to the first that does not cover its part |
| `Station.TimeseriesStation.Clear` | crates/opsense-core/src/station.rs:505-516 | an empty log and an empty cache |
| `StationRuns.QueryRecentExactly` | crates/opsense-core/src/station.rs:527-690 | for every log the answer is the whole window, if and only if the window fits the block cap and starts from 0 on or at a block border |
| `StationRuns.VisitedBlocks` | crates/opsense-core/src/station.rs:617-636 | a query visits the last 20000 blocks of its window, all of them if there are not more |
| `StationRuns.TakenExactly` | crates/opsense-core/src/station.rs:693-733 | every batch inside its window is taken completely, if and only if the window starts from 0 on or at a block border |
| `StationRuns.NegativeTimeLost` | crates/opsense-core/src/station.rs:527-529 | an observation at time -1 is lost with blocks of an hour |
| `StationRuns.RunMirrors` | crates/opsense-core/src/station.rs:693-782 | in every run without eviction the blocks agree with the log |
| `StationRuns.ReingestKeepsRecent` | crates/opsense-core/src/station.rs:722-781 | after any run, ingesting any of its batches again changes no answer of `query_recent` for any window, and needs no more blocks |
| `StationRuns.ReingestChangesStrict` | crates/opsense-core/src/station.rs:763-781 | a run in which ingesting a batch again turns a strict query from no answer to an answer |
| `StationRuns.ReingestStrictExactly` | crates/opsense-core/src/station.rs:763-781 | after any run, ingesting one of its batches again changes no strict query if and only if every block of its window that is present covers its part already |
| `StationRuns.AnswersExactly` | crates/opsense-core/src/station.rs:554-598 | in every run a strict query answers if and only if every block it visits is stored and the windows declared since it was stored reach both ends of its part |
| `StationRuns.GapAnswered` | crates/opsense-core/src/station.rs:763-769 | a strict query is answered over a gap that no batch declared |
| `StationRuns.ProperAnswers` | crates/opsense-core/src/station.rs:554-690 | after proper batches, a query from 0 on within the block cap is the window of the sorted deduplicated history, and a strict answer is the same |
| `Station.Replay` | crates/opsense-core/src/station.rs:693-782 | after any run of batches the station stands for everything it took from them; its cache is that of the run, whatever was evicted, and its blocks are those of the run without eviction if they fit |
| `Station.ReplayAndQuery` | crates/opsense-core/src/station.rs:554-782 | after any run both queries for any window: the windows over the blocks that the run has left, the second exactly when all of them cover their parts; if the blocks fit, the window of the log, and the second answers exactly when the run covers every block; always sorted, without repetition and from what was taken |
| `Station.IngestAndQuery` | crates/opsense-core/src/station.rs:616-782 | after any run and one more batch, at any capacity but 0, the query for the last block with records answers with that block, and with an observation for the identity of every new record |
| `Station.ReplayAndReingest` | crates/opsense-core/src/station.rs:616-782 | the same query before and after one of the batches is ingested again gets the same answer |
| `Gossip.NewerTotal` | crates/opsense-mlib/src/gossip.rs:43-47 | versions are totally ordered |
| `Gossip.InfoState.SetLocal` | crates/opsense-mlib/src/gossip.rs:85-91 | the own entry gets the next value of the clock, which stops at its limit; no other entry changes |
| `Gossip.InfoState.Apply` | crates/opsense-mlib/src/gossip.rs:94-116 | the entry-wise merge, in whatever order, and the clock; true exactly when an entry changed |
| `Gossip.MergedClock` | crates/opsense-mlib/src/gossip.rs:94-116 | the clock never goes back or falls behind the peer's; below the limit a merge that changes something puts it above both, by one; one that changes nothing leaves the larger |
| `Gossip.SnapshotExactly` | crates/opsense-mlib/src/gossip.rs:118-126 | snapshots are equal if and only if the same nodes have the same info, whatever the versions |
| `Gossip.KnowsMerged` | crates/opsense-mlib/src/gossip.rs:94-116 | merging keeps for each id the newest of all publications merged by either side |
| `GossipNetwork.RunInv` | crates/opsense-mlib/src/gossip.rs:85-126 | in every run in which each publication is safe (the clock runs, or the node has no own entry of the largest version, or it repeats the info): equal id and version mean equal info, and every state and message holds the newest of what it merged |
| `GossipNetwork.UnambiguousExactly` | crates/opsense-mlib/src/gossip.rs:85-116 | in every run no two infos were published under one version if and only if every publication was safe |
| `GossipNetwork.SafeIsFresh` | crates/opsense-mlib/src/gossip.rs:85-91 | what a node sees before it publishes decides whether the new version is above all its earlier ones or repeats one |
| `GossipNetwork.Convergence` | crates/opsense-mlib/src/gossip.rs:85-126 | in those runs, nodes that merged the same publications hold equal entries and snapshots, whatever the order, repetition or relaying |
| `GossipNetwork.OwnEntry` | crates/opsense-mlib/src/gossip.rs:228-245 | a node's own entry is the newest for its id anywhere, and is what it published last |
| `GossipNetwork.OwnEntryKept` | crates/opsense-mlib/src/gossip.rs:241-245 | no apply replaces a node's own entry |
| `GossipNetwork.FinitelyManyChanges` | crates/opsense-mlib/src/gossip.rs:94-116 | once publishing has stopped, at most as many applies return true as publications were missing, wherever the clocks are |
| `GossipNetwork.NothingMissing` | crates/opsense-mlib/src/gossip.rs:118-126 | nothing is missing if and only if all nodes agree |
| `GossipNetwork.SaturatedRunDiverges` | crates/opsense-mlib/src/gossip.rs:85-116 | a run from the start with an unsafe publication at the clock limit, after which two other nodes that merged the same publications hold different info |
| `GossipRestart.SoundExactly` | crates/opsense-mlib/src/gossip.rs:85-116 | in every run with restarts: at all times versions are unambiguous and every node that published since its start holds that as the newest entry of its id ever published, if and only if every publication is newer than all earlier ones of the node, in all its lives, or repeats one |
| `GossipRestart.FreshByClock` | crates/opsense-mlib/src/gossip.rs:85-91 | below the clock limit that means: the clock has reached the version of every earlier publication of the node, except for a repetition |
| `GossipRestart.LivesConverge` | crates/opsense-mlib/src/gossip.rs:94-126 | in those runs, nodes that merged the same publications since their start hold equal entries |
| `GossipRestart.LivesKeepOwn` | crates/opsense-mlib/src/gossip.rs:241-245 | in those runs, no apply replaces the entry of a node that published since its start |
| `GossipRestart.RestartOverwritten` | crates/opsense-mlib/src/gossip.rs:186-245 | a run in which a restarted node publishes too early and its own older info replaces the new one |
| `Detector.GossipNode.constructor` | crates/opsense-mlib/src/gossip.rs:186-202 | a node without peers and a quorum of at least 1 |
| `Detector.GossipNode.Publish` | crates/opsense-mlib/src/gossip.rs:228-232 | the published info, the own entry and the dirty mark |
| `Detector.GossipNode.Apply` | crates/opsense-mlib/src/gossip.rs:241-245 | merges, and is dirty if it was or something changed |
| `Detector.GossipNode.MarkAlive` | crates/opsense-mlib/src/gossip.rs:291-320 | the peer is alive, without confirmations; the node itself is never added; when the view counts as changed |
| `Detector.GossipNode.TickSuspects` | crates/opsense-mlib/src/gossip.rs:323-329 | exactly the alive peers silent beyond the window become suspect and are returned, in ascending order |
| `Detector.GossipNode.TickReap` | crates/opsense-mlib/src/gossip.rs:333-350 | exactly the suspects that are silent beyond the limit or confirmed by a quorum of reports die and are returned, in ascending order |
| `Words.LessExactly` | crates/opsense-mlib/src/gossip.rs:333-350 | that order: the first difference decides, and a proper prefix comes first |
| `Detector.GossipNode.ReportMissing` | crates/opsense-mlib/src/gossip.rs:355-368 | one confirmation more for a suspect target, unless the reporter is dead |
| `Detector.RunHistory` | crates/opsense-mlib/src/gossip.rs:291-465 | in every run: never its own peer, the url and time of the last hearing, alive means no confirmations, a suspect's confirmations are the reports counted since it turned suspect |
| `Detector.DiesExactly` | crates/opsense-mlib/src/gossip.rs:333-350 | a peer dies if and only if a reap tick finds it suspect and either silent beyond the limit since last heard or reported at least quorum times |
| `Detector.OneReporterKills` | crates/opsense-mlib/src/gossip.rs:355-368 | for every quorum, a run in which one reporter alone kills a peer within the silence limit |
| `Detector.ReportersOfReports` | crates/opsense-mlib/src/gossip.rs:355-368 | there are at most as many different reporters as counted reports |
| `Detector.QuorumExactly` | crates/opsense-mlib/src/gossip.rs:333-368 | in all runs every death within the silence limit has at least quorum different reporters, if and only if the quorum is at most 1 |
| `Detector.OnlyHearingRevives` | crates/opsense-mlib/src/gossip.rs:291-320 | only hearing from a dead peer revives it; only removal forgets it |
| `Detector.SuspectedExactly` | crates/opsense-mlib/src/gossip.rs:453-465 | a peer turns suspect if and only if a suspect tick finds it alive and silent beyond the window |
| `Detector.NeverSuspected` | crates/opsense-mlib/src/gossip.rs:453-465 | a peer never silent beyond the window at a tick is alive in every state |
| `Detector.Replay` | crates/opsense-mlib/src/gossip.rs:186-465 | any run of calls on a new node ends with the peers of that run |
| `Snowflake.IdsNonNegative` | crates/opsense-mlib/src/snowflake_id.rs:60-64 | whatever the clock and the threads do, an id is below 2^62 and carries the machine number |
| `Snowflake.MachinesApart` | crates/opsense-mlib/src/snowflake_id.rs:60-64 | generators with different machine numbers never issue the same id |
| `Snowflake.ElapsedExactly` | crates/opsense-mlib/src/snowflake_id.rs:38-38 | the time is the milliseconds since the start time; a reading before it counts as 0 |
| `Snowflake.RunAscending` | crates/opsense-mlib/src/snowflake_id.rs:31-68 | below 2^52 ms the shared word is the newest stamp and stamps strictly increase in the order of the swaps |
| `Snowflake.NextExactly` | crates/opsense-mlib/src/snowflake_id.rs:43-52 | the next stamp from the newest one: the time of a later reading with number 0, otherwise the next number of the newest time, none after 4095 |
| `Snowflake.RunNumbered` | crates/opsense-mlib/src/snowflake_id.rs:43-52 | in every run below 2^52 ms the ids of one millisecond are numbered without gaps in the order of the swaps, from 0, or from 1 at the start time |
| `Snowflake.IdFields` | crates/opsense-mlib/src/snowflake_id.rs:60-64 | the fields of an id are 40 bits of time, 12 of the number and 10 of the machine |
| `Snowflake.IdsIncrease` | crates/opsense-mlib/src/snowflake_id.rs:31-68 | ids increase in the order of the swaps while no 2^40 ms border is crossed |
| `Snowflake.DistinctExactly` | crates/opsense-mlib/src/snowflake_id.rs:31-68 | all runs with readings between two bounds issue distinct ids if and only if the bounds are less than 2^40 ms apart and below 2^52 ms |
| `Snowflake.CollisionByOverflow` | crates/opsense-mlib/src/snowflake_id.rs:54-54 | from 2^52 ms on, a run that issues an id twice |
| `Snowflake.SnowflakeId.Generate` | crates/opsense-mlib/src/snowflake_id.rs:31-68 | the retry loop of one undisturbed thread performs the system's steps and returns the id the system issued |
| `Placeholders.Rewrite` | crates/opsense-ffi/src/db.rs:113-168 | success if and only if every reference has a parameter; then the text with `?` for each reference and the parameters in order of use |
| `PlaceholderReading.ReferenceRead` | crates/opsense-ffi/src/db.rs:140-161 | `$`, any number of zeros and the decimal digits of n, before anything but a digit, refer to exactly n and are rewritten to `?` |
| `PlaceholderReading.ReferenceSpelled` | crates/opsense-ffi/src/db.rs:140-149 | conversely, whatever is read as a reference to n is spelled so |
| `PlaceholderReading.QuoteRead` | crates/opsense-ffi/src/db.rs:123-139 | text between two equal single quotes, double quotes or backticks is quoted, whatever it is, up to the second one |
| `PlaceholderReading.OpenQuoteRead` | crates/opsense-ffi/src/db.rs:123-139 | after a quote that is never closed everything is quoted |
| `PlaceholderReading.PlainRead` | crates/opsense-ffi/src/db.rs:162-162 | any other character stands for itself, also a `$` without digits |
| `Placeholders.LexOutput` | crates/opsense-ffi/src/db.rs:113-168 | reading the rewritten text gives the same tokens with `?` in place of each reference |
| `Placeholders.FailsExactly` | crates/opsense-ffi/src/db.rs:140-161 | an error exactly when some unquoted `$n` has n = 0 or n beyond the parameters |
| `Placeholders.NoReferenceRemains` | crates/opsense-ffi/src/db.rs:140-161 | no unquoted `$digits` is left |
| `Placeholders.QuotedUnchanged` | crates/opsense-ffi/src/db.rs:123-139 | the quoted characters are unchanged |
| `Placeholders.MeaningPreservedExactly` | crates/opsense-ffi/src/db.rs:106-168 | binding the rewritten text by position means the same as binding the original by number if and only if there is no unquoted `?` |
| `Placeholders.MarkBreaksMeaning` | crates/opsense-ffi/src/db.rs:106-168 | a statement with an unquoted `?` whose meaning is not kept |
| `Sieve.NextLevel` | crates/opsense-mlib/src/grid.rs:273-292 | for all data c(L) <= c(L+1) <= 2 c(L) + segments, so the unsigned difference never underflows |
| `Sieve.CrossingsBound` | crates/opsense-mlib/src/grid.rs:229-286 | for any data at most 2^L - 1 crossings per segment at level L, none at level 0 |
| `Sieve.CountCrossings` | crates/opsense-mlib/src/grid.rs:273-286 | the inner loop counts the borders crossed after the shift |
| `Sieve.WithConfig` | crates/opsense-mlib/src/grid.rs:208-315 | step 1 for an empty range or no data; otherwise the step of the last level before the first refused one, capacity if level 0 is refused. A level is refused if its step is below the fraction of the middle price, or from level 2 on if the crossings of the grid itself grow by more than the multiple of their growth before, which was not 0, and by at least the minimum per segment |
| `Sieve.AcceptedExactly` | crates/opsense-mlib/src/grid.rs:249-312 | what the loop accepts by its own counts and quotients is what that rule accepts |
| `Sieve.CellBorders` | crates/opsense-mlib/src/grid.rs:229-241 | inside the range a value is in a cell if and only if it lies between the borders of that cell |
| `Sieve.CrossingsExactly` | crates/opsense-mlib/src/grid.rs:273-286 | the crossings are the pairs of a segment and a border between its two cells |
| `Sieve.AcceptedUnique` | crates/opsense-mlib/src/grid.rs:249-312 | the accepted levels are determined by data and configuration |
| `Sieve.FloorIsFinal` | crates/opsense-mlib/src/grid.rs:255-267 | below the floor once, below it at every finer level, so leaving the loop there skips nothing |
| `Sieve.CountedCrossings` | crates/opsense-mlib/src/grid.rs:128-160 | the returned grid crosses its data exactly as often as the sieve counted at the accepted level |
| `Sieve.GridCrossings` | crates/opsense-mlib/src/grid.rs:153-160 | the loop over value pairs counts the crossings of the grid's cells |

## Left out

- SearchIndex.Index.Search: does not promise every matching key, because the walk stops at the first complete match below each candidate; candidates come in any order.
- SearchIndex.Index.Search: `depth + 1` is unbounded; the overflow at the largest machine word is not modelled.
- SearchIndex.Index.SearchDfs: the deadline is a number of steps, and the matcher is a function value; `RadixSearch.AskKmpMatcher` is the method that computes it.
- SearchIndex.Index.Match and SearchIndex.Index.SearchPrefix take a node that exists; the storage error for an unknown node is not modelled.
- Lru.LruCache.AcquireNode: one scan over the shards; the repeated scans only matter when other threads change the shards in between.
- Lru.LruCache.Get: a try-lock always succeeds, since every call is one atomic step; interleavings inside calls, the fixed-split layout, persistence hooks and read-through loading are not modelled.
- Lru.LruCache.constructor: the hash function is a parameter and the shard index is the hash modulo the number of shards, which is the mask for a power of two.
- Station.TimeseriesStation.UpdateRange: stations with a persistent backend, background sync and cold reload are not modelled, nor is 64-bit overflow of block borders.
- Detector.GossipNode.ReportMissing: the confirmation counter is unbounded; its 32-bit overflow is not modelled.
- Placeholders.MeaningPreservedExactly: both readings double a quote to escape it, as the scanner does; backslash escapes and comments of SQL dialects are not modelled.
- Sieve.WithConfig: exact real numbers; rounding, infinities and the overflow of the crossing counter are not modelled, and the branch for a non-positive or infinite step cannot be taken.
- Gossip's dirty flag is set but the call that takes it, the roster and the probe lists are not modelled.
- Radix bloom filters, node and chain metadata streams, `Search::clear`, element byte encodings and storage errors.
- The bloom filter, random cut forest, raft map, jq evaluators, storage backends, HTTP, FFI, scripting and configuration: easy members, I/O or foreign code.
