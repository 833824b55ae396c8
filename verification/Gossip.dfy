/**
 The replicated info map of crates/opsense-mlib/src/gossip.rs: last writer wins by Lamport version.
 This is the map of one node, updated in place, and what such a map knows of the publications.
 */
module Gossip {
  import opened Words

  const U64_MAX: nat := 0xFFFF_FFFF_FFFF_FFFF

  type U64 = x: nat | x <= U64_MAX

  datatype Info = Info(version: string, startedAt: nat, note: string)

  datatype Version = Version(lamport: U64, author: string)

  datatype Entry = Entry(info: Info, version: Version)

  type Entries = map<string, Entry>

  datatype State = State(lamport: U64, entries: Entries)

  /** `saturating_add(1)`. */
  function Increment(x: U64): U64 {
    if x < U64_MAX then x + 1 else x
  }

  // ---------------------------------------------------------------- the order of versions

  /** `is_newer_than`. */
  predicate Newer(a: Version, b: Version) {
    a.lamport > b.lamport || (a.lamport == b.lamport && Less(b.author, a.author))
  }

  /** Versions are totally ordered. */
  lemma NewerTotal(a: Version, b: Version)
    ensures Newer(a, b) || Newer(b, a) || a == b
    ensures !(Newer(a, b) && Newer(b, a)) && !Newer(a, a)
  {
    LessTotal(a.author, b.author);
    LessTotal(a.author, a.author);
  }

  lemma NewerTrans(a: Version, b: Version, c: Version)
    requires Newer(a, b) && Newer(b, c)
    ensures Newer(a, c)
  {
    if a.lamport == c.lamport {
      LessTrans(c.author, b.author, a.author);
    }
  }

  /** Not newer than something not newer than `c`. */
  lemma NotNewerTrans(a: Version, b: Version, c: Version)
    requires !Newer(a, b) && !Newer(b, c)
    ensures !Newer(a, c)
  {
    NewerTotal(a, b);
    NewerTotal(b, c);
    NewerTotal(a, c);
    if Newer(b, a) && Newer(c, b) {
      NewerTrans(c, b, a);
    }
  }

  // ---------------------------------------------------------------- one node

  /** An entry for `id` replaces what is there. */
  predicate Wins(entries: Entries, id: string, e: Entry) {
    id !in entries || Newer(e.version, entries[id].version)
  }

  function MergedEntries(a: Entries, b: Entries): Entries {
    map id | id in a.Keys + b.Keys :: if id in b && Wins(a, id, b[id]) then b[id] else a[id]
  }

  ghost predicate Changes(a: Entries, b: Entries) {
    exists id :: id in b && Wins(a, id, b[id])
  }

  function Larger(a: U64, b: U64): U64 {
    if a < b then b else a
  }

  ghost function Merged(s: State, remote: State): State {
    var clock := Larger(s.lamport, remote.lamport);
    var clock' := if Changes(s.entries, remote.entries) then Increment(clock) else clock;
    State(clock', MergedEntries(s.entries, remote.entries))
  }

  ghost function WithLocal(s: State, id: string, info: Info): State {
    var clock := Increment(s.lamport);
    State(clock, s.entries[id := Entry(info, Version(clock, id))])
  }

  /**
   The clock never goes back and never falls behind a peer's. A merge that changes something puts it above both, until
   it is saturated; one that changes nothing leaves the larger of the two.
   */
  lemma MergedClock(s: State, remote: State)
    ensures var clock, changed := Merged(s, remote).lamport, Merged(s, remote).entries != s.entries;
            && clock >= s.lamport && clock >= remote.lamport
            && (changed && s.lamport < U64_MAX && remote.lamport < U64_MAX ==>
                  && clock > s.lamport && clock > remote.lamport
                  && (clock == s.lamport + 1 || clock == remote.lamport + 1))
            && (!changed ==> clock == s.lamport || clock == remote.lamport)
  {
    ChangesDiffer(s.entries, remote.entries);
  }

  class InfoState {
    var lamport: U64
    var entries: Entries

    ghost function Value(): State
      reads this
    {
      State(lamport, entries)
    }

    constructor ()
      ensures Value() == State(0, map[])
    {
      lamport, entries := 0, map[];
    }

    method SetLocal(id: string, info: Info)
      modifies this
      ensures Value() == WithLocal(old(Value()), id, info)
      ensures lamport == if old(lamport) < U64_MAX then old(lamport) + 1 else U64_MAX
      ensures entries == old(entries)[id := Entry(info, Version(lamport, id))]
    {
      lamport := if lamport < U64_MAX then lamport + 1 else lamport;
      entries := entries[id := Entry(info, Version(lamport, id))];
    }

    /** Merges what a peer sent, entry by entry in any order; true if something changed. */
    method Apply(remote: State) returns (changed: bool)
      modifies this
      ensures Value() == Merged(old(Value()), remote)
      ensures changed <==> Changes(old(entries), remote.entries)
      ensures changed <==> entries != old(entries)
    {
      changed := false;
      lamport := Larger(lamport, remote.lamport);
      ghost var before, done := entries, map[];
      var rest := remote.entries;
      while rest != map[]
        invariant done.Keys !! rest.Keys && done + rest == remote.entries
        invariant entries == MergedEntries(before, done) && (changed <==> Changes(before, done))
        invariant lamport == Larger(old(lamport), remote.lamport)
        decreases rest
      {
        var id :| id in rest;
        var e := rest[id];
        MergeOne(before, done, id, e);
        if id !in entries || Newer(e.version, entries[id].version) {
          entries := entries[id := e];
          changed := true;
        }
        done := done[id := e];
        rest := rest - {id};
      }
      assert done == remote.entries;
      if changed {
        lamport := Increment(lamport);
      }
      ChangesDiffer(before, remote.entries);
    }
  }

  /** `snapshot`: the info by node, without versions. */
  function Snapshot(entries: Entries): map<string, Info> {
    map id | id in entries :: entries[id].info
  }

  /** Snapshots are equal exactly when the same nodes have the same info, whatever the versions. */
  lemma SnapshotExactly(a: Entries, b: Entries)
    ensures Snapshot(a) == Snapshot(b) <==> a.Keys == b.Keys && forall id | id in a :: a[id].info == b[id].info
  {
    if Snapshot(a) == Snapshot(b) {
      assert a.Keys == Snapshot(a).Keys && b.Keys == Snapshot(b).Keys;
      forall id | id in a ensures a[id].info == b[id].info {
        assert Snapshot(a)[id] == Snapshot(b)[id];
      }
    }
  }

  lemma MergeOne(before: Entries, done: Entries, id: string, e: Entry)
    requires id !in done
    ensures var now, next := MergedEntries(before, done), MergedEntries(before, done[id := e]);
            && (Wins(now, id, e) <==> Wins(before, id, e))
            && next == (if Wins(now, id, e) then now[id := e] else now)
            && (Changes(before, done[id := e]) <==> Changes(before, done) || Wins(now, id, e))
  {
    var done' := done[id := e];
    if Changes(before, done) {
      var k :| k in done && Wins(before, k, done[k]);
      assert k in done' && done'[k] == done[k];
    }
    if Wins(before, id, e) {
      assert id in done' && Wins(before, id, done'[id]);
    }
  }

  /** `apply` reports a change exactly when an entry is different afterwards. */
  lemma ChangesDiffer(a: Entries, b: Entries)
    ensures Changes(a, b) <==> MergedEntries(a, b) != a
  {
    if Changes(a, b) {
      var id :| id in b && Wins(a, id, b[id]);
      if id in a {
        NewerTotal(b[id].version, a[id].version);
      }
      assert MergedEntries(a, b)[id] == b[id];
      assert id in a ==> MergedEntries(a, b)[id] != a[id];
    }
  }

  // ---------------------------------------------------------------- what a node knows

  /** One call of `publish`, by node `id`. */
  datatype Publication = Publication(id: string, entry: Entry)

  ghost predicate Best(entries: Entries, p: Publication) {
    p.id in entries && !Newer(p.entry.version, entries[p.id].version)
  }

  ghost predicate Origin(entries: Entries, seen: set<Publication>, id: string)
    requires id in entries
  {
    Publication(id, entries[id]) in seen
  }

  /** The entries are the newest of the publications that were merged, for each id. */
  ghost predicate Knows(entries: Entries, seen: set<Publication>) {
    && (forall id {:trigger Origin(entries, seen, id)} | id in entries :: Origin(entries, seen, id))
    && (forall p {:trigger Best(entries, p)} | p in seen :: Best(entries, p))
  }

  /** No two publications of a node have the same version. */
  ghost predicate Unambiguous(log: set<Publication>) {
    forall p, q | p in log && q in log && p.id == q.id && p.entry.version == q.entry.version :: p == q
  }

  lemma KnowsMerged(a: Entries, sa: set<Publication>, b: Entries, sb: set<Publication>)
    requires Knows(a, sa) && Knows(b, sb)
    ensures Knows(MergedEntries(a, b), sa + sb)
  {
    var m := MergedEntries(a, b);
    forall id | id in m ensures Origin(m, sa + sb, id) {
      assert id in a ==> Origin(a, sa, id);
      assert id in b ==> Origin(b, sb, id);
    }
    forall p | p in sa + sb ensures Best(m, p) {
      assert p in sa ==> Best(a, p);
      assert p in sb ==> Best(b, p);
      MergedBest(a, b, p);
    }
  }

  lemma MergedBest(a: Entries, b: Entries, p: Publication)
    requires Best(a, p) || Best(b, p)
    ensures Best(MergedEntries(a, b), p)
  {
    if p.id in a && p.id in b {
      var va, vb := a[p.id].version, b[p.id].version;
      NewerTotal(va, vb);
      if Best(a, p) {
        NotNewerTrans(p.entry.version, va, if Newer(vb, va) then vb else va) by { NewerTotal(va, va); }
      } else {
        NotNewerTrans(p.entry.version, vb, if Newer(vb, va) then vb else va) by { NewerTotal(vb, vb); }
      }
    }
  }
}
