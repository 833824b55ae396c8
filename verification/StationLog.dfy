/**
 The plain log that the block index of crates/opsense-core/src/station.rs must agree with:
 observations stably sorted by time, the first of each identity kept. Sorting and removing
 duplicates again, or block by block, gives the same log.
 */
module StationLog {
  import opened Observations

  // ---------------------------------------------------------------- the log

  ghost predicate NotAfter(s: seq<Observation>, t: int) {
    s == [] || (s[|s| - 1].ts <= t && NotAfter(s[..|s| - 1], t))
  }

  ghost predicate Sorted(s: seq<Observation>) {
    s == [] || (NotAfter(s[..|s| - 1], s[|s| - 1].ts) && Sorted(s[..|s| - 1]))
  }

  /** `o` after everything that is not later. */
  function Insert(o: Observation, s: seq<Observation>): seq<Observation> {
    if s == [] || s[|s| - 1].ts <= o.ts then s + [o] else Insert(o, s[..|s| - 1]) + [s[|s| - 1]]
  }

  /** `sort_by_key(ts)`, which is stable. */
  function Sort(s: seq<Observation>): seq<Observation> {
    if s == [] then [] else Insert(s[|s| - 1], Sort(s[..|s| - 1]))
  }

  predicate Contains(s: seq<Observation>, id: ObsIdentity) {
    s != [] && (Identity(s[|s| - 1]) == id || Contains(s[..|s| - 1], id))
  }

  /** `retain` with a set of the identities seen: the first of each stays. */
  ghost function Dedup(s: seq<Observation>): seq<Observation> {
    if s == [] then []
    else
      var d, o := Dedup(s[..|s| - 1]), s[|s| - 1];
      if Contains(d, Identity(o)) then d else d + [o]
  }

  /** What a station makes of a history. */
  ghost function Norm(s: seq<Observation>): seq<Observation> {
    Dedup(Sort(s))
  }

  /** One more observation. */
  ghost function Add(log: seq<Observation>, o: Observation): seq<Observation> {
    if Contains(log, Identity(o)) then log else Insert(o, log)
  }

  /** The observations with a time between `lo` and `hi`, in order. */
  ghost function Window(s: seq<Observation>, lo: int, hi: int): seq<Observation> {
    if s == [] then []
    else
      var w, o := Window(s[..|s| - 1], lo, hi), s[|s| - 1];
      if lo <= o.ts <= hi then w + [o] else w
  }

  // ---------------------------------------------------------------- one element more

  lemma Split(s: seq<Observation>) returns (front: seq<Observation>, last: Observation)
    requires s != []
    ensures s == front + [last] && |front| == |s| - 1
  {
    front, last := s[..|s| - 1], s[|s| - 1];
  }

  lemma WindowSnoc(s: seq<Observation>, o: Observation, lo: int, hi: int)
    ensures Window(s + [o], lo, hi) == if lo <= o.ts <= hi then Window(s, lo, hi) + [o] else Window(s, lo, hi)
  {
    assert (s + [o])[..|s|] == s;
  }

  lemma InsertSnoc(o: Observation, s: seq<Observation>, last: Observation)
    ensures Insert(o, s + [last]) == if last.ts <= o.ts then s + [last] + [o] else Insert(o, s) + [last]
  {
    assert (s + [last])[..|s|] == s;
  }

  lemma SortSnoc(s: seq<Observation>, o: Observation)
    ensures Sort(s + [o]) == Insert(o, Sort(s))
  {
    assert (s + [o])[..|s|] == s;
  }

  lemma SortedSnoc(s: seq<Observation>, o: Observation)
    ensures Sorted(s + [o]) <==> Sorted(s) && NotAfter(s, o.ts)
  {
    assert (s + [o])[..|s|] == s;
  }

  lemma NotAfterSnoc(s: seq<Observation>, o: Observation, t: int)
    ensures NotAfter(s + [o], t) <==> NotAfter(s, t) && o.ts <= t
  {
    assert (s + [o])[..|s|] == s;
  }

  // ---------------------------------------------------------------- sorting is stable sorting

  lemma {:induction false} NotAfterLater(s: seq<Observation>, t: int, u: int)
    requires NotAfter(s, t) && t <= u
    ensures NotAfter(s, u)
  {
    if s != [] {
      NotAfterLater(s[..|s| - 1], t, u);
    }
  }

  lemma {:induction false} InsertNotAfter(o: Observation, s: seq<Observation>, t: int)
    requires NotAfter(s, t) && o.ts <= t
    ensures NotAfter(Insert(o, s), t)
  {
    if s != [] {
      var front, last := Split(s);
      NotAfterSnoc(front, last, t);
      InsertSnoc(o, front, last);
      if last.ts <= o.ts {
        NotAfterSnoc(s, o, t);
      } else {
        InsertNotAfter(o, front, t);
        NotAfterSnoc(Insert(o, front), last, t);
      }
    } else {
      NotAfterSnoc([], o, t);
    }
  }

  lemma {:induction false} InsertSorted(o: Observation, s: seq<Observation>)
    requires Sorted(s)
    ensures Sorted(Insert(o, s)) && multiset(Insert(o, s)) == multiset(s) + multiset{o}
  {
    if s == [] {
      SortedSnoc([], o);
    } else {
      var front, last := Split(s);
      SortedSnoc(front, last);
      InsertSnoc(o, front, last);
      if last.ts <= o.ts {
        SortedSnoc(s, o);
        NotAfterLater(front, last.ts, o.ts);
        NotAfterSnoc(front, last, o.ts);
      } else {
        InsertSorted(o, front);
        InsertNotAfter(o, front, last.ts);
        SortedSnoc(Insert(o, front), last);
      }
    }
  }

  lemma {:induction false} SortSorted(s: seq<Observation>)
    ensures Sorted(Sort(s)) && multiset(Sort(s)) == multiset(s)
    decreases |s|
  {
    if s != [] {
      var front, last := Split(s);
      SortSorted(front);
      SortSnoc(front, last);
      InsertSorted(last, Sort(front));
    }
  }

  lemma {:induction false} WindowNotAfter(s: seq<Observation>, lo: int, hi: int, t: int)
    requires NotAfter(s, t)
    ensures NotAfter(Window(s, lo, hi), t)
  {
    if s != [] {
      var front, last := Split(s);
      NotAfterSnoc(front, last, t);
      WindowNotAfter(front, lo, hi, t);
      WindowSnoc(front, last, lo, hi);
      NotAfterSnoc(Window(front, lo, hi), last, t);
    }
  }

  lemma {:induction false} InsertLast(o: Observation, s: seq<Observation>)
    requires NotAfter(s, o.ts)
    ensures Insert(o, s) == s + [o]
  {
  }

  /** Inserting and restricting to a window commute. */
  lemma {:induction false} WindowInsert(o: Observation, s: seq<Observation>, lo: int, hi: int)
    requires Sorted(s)
    ensures Window(Insert(o, s), lo, hi) == if lo <= o.ts <= hi then Insert(o, Window(s, lo, hi)) else Window(s, lo, hi)
    decreases |s|, 0
  {
    if s == [] {
      WindowSnoc([], o, lo, hi);
    } else {
      var front, last := Split(s);
      SortedSnoc(front, last);
      WindowInsertSnoc(o, front, last, lo, hi);
    }
  }

  lemma {:induction false} WindowInsertSnoc(o: Observation, front: seq<Observation>, last: Observation, lo: int,
                                            hi: int)
    requires Sorted(front) && NotAfter(front, last.ts)
    ensures Window(Insert(o, front + [last]), lo, hi) ==
            if lo <= o.ts <= hi then Insert(o, Window(front + [last], lo, hi)) else Window(front + [last], lo, hi)
    decreases |front|, 1
  {
    WindowSnoc(front, last, lo, hi);
    InsertSnoc(o, front, last);
    if last.ts <= o.ts {
      WindowSnoc(front + [last], o, lo, hi);
      NotAfterLater(front, last.ts, o.ts);
      NotAfterSnoc(front, last, o.ts);
      WindowNotAfter(front + [last], lo, hi, o.ts);
      InsertLast(o, Window(front + [last], lo, hi));
    } else {
      WindowInsert(o, front, lo, hi);
      WindowSnoc(Insert(o, front), last, lo, hi);
      InsertSnoc(o, Window(front, lo, hi), last);
    }
  }

  /**
   Stability: the sorted history restricted to a window is the sorted window; observations of one time stay in
   order.
   */
  lemma {:induction false} SortStable(s: seq<Observation>, lo: int, hi: int)
    ensures Window(Sort(s), lo, hi) == Sort(Window(s, lo, hi))
    ensures lo == hi ==> Window(Sort(s), lo, hi) == Window(s, lo, hi)
    decreases |s|
  {
    if s != [] {
      var front, last := Split(s);
      SortStable(front, lo, hi);
      SortSorted(front);
      SortSnoc(front, last);
      WindowInsert(last, Sort(front), lo, hi);
      WindowSnoc(front, last, lo, hi);
      SortSnoc(Window(front, lo, hi), last);
      if lo == hi == last.ts {
        WindowUpTo(front, lo, hi);
        InsertLast(last, Window(front, lo, hi));
      }
    }
  }

  lemma {:induction false} WindowUpTo(s: seq<Observation>, lo: int, hi: int)
    ensures NotAfter(Window(s, lo, hi), hi)
    decreases |s|
  {
    if s != [] {
      var front, last := Split(s);
      WindowUpTo(front, lo, hi);
      WindowSnoc(front, last, lo, hi);
      NotAfterSnoc(Window(front, lo, hi), last, hi);
    }
  }

  // ---------------------------------------------------------------- removing duplicates

  lemma ContainsSnoc(s: seq<Observation>, o: Observation, id: ObsIdentity)
    ensures Contains(s + [o], id) <==> Contains(s, id) || Identity(o) == id
  {
    assert (s + [o])[..|s|] == s;
  }

  lemma DedupSnoc(s: seq<Observation>, o: Observation)
    ensures Dedup(s + [o]) == if Contains(Dedup(s), Identity(o)) then Dedup(s) else Dedup(s) + [o]
  {
    assert (s + [o])[..|s|] == s;
  }

  lemma {:induction false} InsertContains(o: Observation, s: seq<Observation>, id: ObsIdentity)
    ensures Contains(Insert(o, s), id) <==> Contains(s, id) || Identity(o) == id
  {
    if s == [] {
      ContainsSnoc([], o, id);
    } else {
      var front, last := Split(s);
      InsertSnoc(o, front, last);
      ContainsSnoc(front, last, id);
      ContainsSnoc(s, o, id);
      InsertContains(o, front, id);
      ContainsSnoc(Insert(o, front), last, id);
    }
  }

  lemma {:induction false} DedupNotAfter(s: seq<Observation>, t: int)
    requires NotAfter(s, t)
    ensures NotAfter(Dedup(s), t)
  {
    if s != [] {
      var front, last := Split(s);
      NotAfterSnoc(front, last, t);
      DedupNotAfter(front, t);
      DedupSnoc(front, last);
      NotAfterSnoc(Dedup(front), last, t);
    }
  }

  lemma {:induction false} DedupSorted(s: seq<Observation>)
    requires Sorted(s)
    ensures Sorted(Dedup(s))
  {
    if s != [] {
      var front, last := Split(s);
      SortedSnoc(front, last);
      DedupSorted(front);
      DedupNotAfter(front, last.ts);
      DedupSnoc(front, last);
      SortedSnoc(Dedup(front), last);
    }
  }

  /** Inserting before or after the removal of duplicates is the same. */
  lemma {:induction false} DedupInsert(o: Observation, s: seq<Observation>)
    requires Sorted(s)
    ensures Dedup(Insert(o, s)) == Add(Dedup(s), o)
    decreases |s|
  {
    if s == [] {
      DedupSnoc([], o);
    } else {
      var front, last := Split(s);
      SortedSnoc(front, last);
      InsertSnoc(o, front, last);
      if last.ts <= o.ts {
        DedupSnoc(s, o);
        NotAfterLater(front, last.ts, o.ts);
        NotAfterSnoc(front, last, o.ts);
        DedupNotAfter(s, o.ts);
        InsertLast(o, Dedup(s));
      } else {
        DedupInsert(o, front);
        DedupInsertEarlier(o, front, last);
      }
    }
  }

  lemma DedupInsertEarlier(o: Observation, front: seq<Observation>, last: Observation)
    requires last.ts > o.ts && Dedup(Insert(o, front)) == Add(Dedup(front), o)
    ensures Dedup(Insert(o, front) + [last]) == Add(Dedup(front + [last]), o)
  {
    var d := Dedup(front);
    DedupSnoc(front, last);
    DedupSnoc(Insert(o, front), last);
    InsertContains(o, d, Identity(last));
    ContainsSnoc(d, last, Identity(o));
    InsertSnoc(o, d, last);
  }

  // ---------------------------------------------------------------- the log, one observation at a time

  /** `at` are the positions at which a key occurs for the first time, in order. */
  ghost predicate Firsts<T>(keys: seq<T>, at: seq<nat>) {
    && (forall i, j | 0 <= i < j < |at| :: at[i] < at[j])
    && (forall j | 0 <= j < |at| :: at[j] < |keys|)
    && (forall i: nat | i < |keys| :: i in at <==> keys[i] !in keys[..i])
  }

  lemma FirstsNext<T>(keys: seq<T>, k: T, at: seq<nat>)
    requires Firsts(keys, at)
    ensures Firsts(keys + [k], if k in keys then at else at + [|keys|])
  {
    var keys', at' := keys + [k], if k in keys then at else at + [|keys|];
    forall i: nat | i < |keys'| ensures i in at' <==> keys'[i] !in keys'[..i] {
      if i < |keys| {
        assert keys'[..i] == keys[..i] && keys'[i] == keys[i];
      } else {
        assert keys'[..i] == keys && keys'[i] == k;
      }
    }
  }

  ghost function Identities(s: seq<Observation>): (r: seq<ObsIdentity>)
    ensures |r| == |s| && forall i | 0 <= i < |s| :: r[i] == Identity(s[i])
  {
    seq(|s|, i requires 0 <= i < |s| => Identity(s[i]))
  }

  lemma {:induction false} ContainsIs(s: seq<Observation>, id: ObsIdentity)
    ensures Contains(s, id) <==> id in Identities(s)
    decreases |s|
  {
    if s != [] {
      var front, last := Split(s);
      ContainsIs(front, id);
      ContainsSnoc(front, last, id);
      assert Identities(s) == Identities(front) + [Identity(last)];
    }
  }

  /** `d` are the elements of `s` at the positions `at`. */
  ghost predicate Picked<T>(s: seq<T>, at: seq<nat>, d: seq<T>) {
    |at| == |d| && forall j | 0 <= j < |at| :: at[j] < |s| && d[j] == s[at[j]]
  }

  lemma PickedNext<T>(s: seq<T>, o: T, at: seq<nat>, d: seq<T>)
    requires Picked(s, at, d)
    ensures Picked(s + [o], at, d) && Picked(s + [o], at + [|s|], d + [o])
  {
  }

  lemma IdentitiesSnoc(s: seq<Observation>, o: Observation)
    ensures Identities(s + [o]) == Identities(s) + [Identity(o)]
  {
  }

  /** Deduplication keeps exactly the first observation of each identity, in order. */
  lemma {:induction false} DedupFirst(s: seq<Observation>) returns (at: seq<nat>)
    ensures Firsts(Identities(s), at) && Picked(s, at, Dedup(s))
    decreases |s|
  {
    if s == [] {
      at := [];
    } else {
      var front, o := Split(s);
      at := DedupFirst(front);
      at := DedupNext(front, o, at);
    }
  }

  lemma DedupNext(s: seq<Observation>, o: Observation, at: seq<nat>) returns (at': seq<nat>)
    requires Firsts(Identities(s), at) && Picked(s, at, Dedup(s))
    ensures Firsts(Identities(s + [o]), at') && Picked(s + [o], at', Dedup(s + [o]))
  {
    var id, d := Identity(o), Dedup(s);
    IdentitiesSnoc(s, o);
    DedupSnoc(s, o);
    DedupHas(s, id);
    ContainsIs(s, id);
    at' := NextFirst(s, o, Identities(s), id, at, d, Identities(s + [o]), Dedup(s + [o]));
  }

  lemma NextFirst<T, U>(s: seq<T>, o: T, keys: seq<U>, k: U, at: seq<nat>, d: seq<T>, keys': seq<U>, d': seq<T>)
    returns (at': seq<nat>)
    requires Firsts(keys, at) && Picked(s, at, d) && |keys| == |s| && keys' == keys + [k]
    requires d' == if k in keys then d else d + [o]
    ensures Firsts(keys', at') && Picked(s + [o], at', d')
  {
    FirstsNext(keys, k, at);
    PickedNext(s, o, at, d);
    at' := if k in keys then at else at + [|keys|];
  }

  lemma {:induction false} DedupHas(s: seq<Observation>, id: ObsIdentity)
    ensures Contains(Dedup(s), id) <==> Contains(s, id)
    decreases |s|
  {
    if s != [] {
      var front, last := Split(s);
      DedupHas(front, id);
      DedupSnoc(front, last);
      ContainsSnoc(front, last, id);
      ContainsSnoc(Dedup(front), last, id);
    }
  }

  lemma NormSnoc(s: seq<Observation>, o: Observation)
    ensures Norm(s + [o]) == Add(Norm(s), o)
  {
    SortSnoc(s, o);
    SortSorted(s);
    DedupInsert(o, Sort(s));
  }

  lemma NormSorted(s: seq<Observation>)
    ensures Sorted(Norm(s))
  {
    SortSorted(s);
    DedupSorted(Sort(s));
  }

  lemma {:induction false} NormContains(s: seq<Observation>, id: ObsIdentity)
    ensures Contains(Norm(s), id) <==> Contains(s, id)
    decreases |s|
  {
    if s != [] {
      var front, last := Split(s);
      NormContains(front, id);
      NormContains(front, Identity(last));
      NormSnoc(front, last);
      InsertContains(last, Norm(front), id);
      ContainsSnoc(front, last, id);
    }
  }

  ghost predicate Unique(s: seq<Observation>) {
    s == [] || (!Contains(s[..|s| - 1], Identity(s[|s| - 1])) && Unique(s[..|s| - 1]))
  }

  lemma UniqueSnoc(s: seq<Observation>, o: Observation)
    ensures Unique(s + [o]) <==> Unique(s) && !Contains(s, Identity(o))
  {
    assert (s + [o])[..|s|] == s;
  }

  lemma {:induction false} DedupUnique(s: seq<Observation>)
    ensures Unique(Dedup(s))
    decreases |s|
  {
    if s != [] {
      var front, last := Split(s);
      DedupUnique(front);
      DedupSnoc(front, last);
      UniqueSnoc(Dedup(front), last);
    }
  }

  /** A log is its own normal form. */
  lemma {:induction false} NormFixed(s: seq<Observation>)
    requires Sorted(s) && Unique(s)
    ensures Norm(s) == s
    decreases |s|
  {
    if s != [] {
      var front, last := Split(s);
      UniqueSnoc(front, last);
      SortedSnoc(front, last);
      NormFixed(front);
      NormSnoc(front, last);
      InsertLast(last, front);
    }
  }

  ghost function AddAll(log: seq<Observation>, s: seq<Observation>): seq<Observation> {
    if s == [] then log else Add(AddAll(log, s[..|s| - 1]), s[|s| - 1])
  }

  lemma AddAllSnoc(log: seq<Observation>, s: seq<Observation>, o: Observation)
    ensures AddAll(log, s + [o]) == Add(AddAll(log, s), o)
  {
    assert (s + [o])[..|s|] == s;
  }

  lemma Regroup(s: seq<Observation>, t: seq<Observation>, o: Observation)
    ensures s + (t + [o]) == (s + t) + [o]
  {
  }

  lemma {:induction false} NormAppend(s: seq<Observation>, t: seq<Observation>)
    ensures Norm(s + t) == AddAll(Norm(s), t)
    decreases |t|
  {
    if t == [] {
      assert s + t == s;
    } else {
      var front, last := Split(t);
      NormAppend(s, front);
      NormSnoc(s + front, last);
      Regroup(s, front, last);
      AddAllSnoc(Norm(s), front, last);
    }
  }

  /** Normalising in instalments is normalising everything at once. */
  lemma NormAgain(s: seq<Observation>, t: seq<Observation>)
    ensures Norm(Norm(s) + t) == Norm(s + t)
  {
    NormSorted(s);
    DedupUnique(Sort(s));
    NormFixed(Norm(s));
    NormAppend(Norm(s), t);
    NormAppend(s, t);
  }

  ghost predicate AllIn(s: seq<Observation>, t: seq<Observation>) {
    t == [] || (Contains(s, Identity(t[|t| - 1])) && AllIn(s, t[..|t| - 1]))
  }

  /** Observations that are known already change nothing. */
  lemma {:induction false} NormKnown(s: seq<Observation>, t: seq<Observation>)
    requires AllIn(s, t)
    ensures Norm(s + t) == Norm(s)
  {
    NormAppend(s, t);
    if t != [] {
      var front, last := t[..|t| - 1], t[|t| - 1];
      NormKnown(s, front);
      NormAppend(s, front);
      NormContains(s, Identity(last));
    } else {
      assert s + t == s;
    }
  }

  // ---------------------------------------------------------------- windows

  lemma {:induction false} WindowContains(s: seq<Observation>, lo: int, hi: int, id: ObsIdentity)
    ensures Contains(Window(s, lo, hi), id) <==> Contains(s, id) && lo <= id.ts <= hi
    decreases |s|
  {
    if s != [] {
      var front, last := Split(s);
      WindowContains(front, lo, hi, id);
      WindowSnoc(front, last, lo, hi);
      ContainsSnoc(front, last, id);
      ContainsSnoc(Window(front, lo, hi), last, id);
    }
  }

  lemma {:induction false} WindowMembers(s: seq<Observation>, lo: int, hi: int, o: Observation)
    ensures o in Window(s, lo, hi) <==> o in s && lo <= o.ts <= hi
    decreases |s|
  {
    if s != [] {
      var front, last := Split(s);
      WindowMembers(front, lo, hi, o);
      WindowSnoc(front, last, lo, hi);
    }
  }

  /** The log of a window is the window of the log. */
  lemma {:induction false} WindowNorm(s: seq<Observation>, lo: int, hi: int)
    ensures Window(Norm(s), lo, hi) == Norm(Window(s, lo, hi))
    decreases |s|
  {
    if s != [] {
      var front, last := Split(s);
      WindowNorm(front, lo, hi);
      NormSnoc(front, last);
      NormSorted(front);
      WindowSnoc(front, last, lo, hi);
      NormSnoc(Window(front, lo, hi), last);
      WindowContains(Norm(front), lo, hi, Identity(last));
      WindowInsert(last, Norm(front), lo, hi);
    }
  }

  lemma {:induction false} WindowAppend(s: seq<Observation>, t: seq<Observation>, lo: int, hi: int)
    ensures Window(s + t, lo, hi) == Window(s, lo, hi) + Window(t, lo, hi)
    decreases |t|
  {
    if t == [] {
      assert s + t == s;
    } else {
      var front, last := Split(t);
      WindowAppend(s, front, lo, hi);
      WindowSnoc(s + front, last, lo, hi);
      WindowSnoc(front, last, lo, hi);
      Regroup(s, front, last);
      Regroup(Window(s, lo, hi), Window(front, lo, hi), last);
    }
  }

  function Max(a: int, b: int): int {
    if a < b then b else a
  }

  function Min(a: int, b: int): int {
    if a < b then a else b
  }

  lemma {:induction false} WindowWindow(s: seq<Observation>, a: int, b: int, c: int, d: int)
    ensures Window(Window(s, a, b), c, d) == Window(s, Max(a, c), Min(b, d))
    decreases |s|
  {
    if s != [] {
      var front, last := Split(s);
      WindowWindow(front, a, b, c, d);
      WindowSnoc(front, last, a, b);
      WindowSnoc(front, last, Max(a, c), Min(b, d));
      WindowSnoc(Window(front, a, b), last, c, d);
    }
  }

  lemma {:induction false} WindowPast(s: seq<Observation>, lo: int, hi: int, t: int)
    requires NotAfter(s, t) && t < lo
    ensures Window(s, lo, hi) == []
  {
    if s != [] {
      var front, last := Split(s);
      NotAfterSnoc(front, last, t);
      WindowPast(front, lo, hi, t);
      WindowSnoc(front, last, lo, hi);
    }
  }

  /** Adjacent windows of a log, one after the other, are the window of both. */
  lemma {:induction false} WindowJoin(s: seq<Observation>, lo: int, mid: int, hi: int)
    requires Sorted(s) && lo <= mid + 1 && mid <= hi
    ensures Window(s, lo, mid) + Window(s, mid + 1, hi) == Window(s, lo, hi)
  {
    if s != [] {
      var front, last := Split(s);
      SortedSnoc(front, last);
      WindowJoin(front, lo, mid, hi);
      WindowSnoc(front, last, lo, mid);
      WindowSnoc(front, last, mid + 1, hi);
      WindowSnoc(front, last, lo, hi);
      if lo <= last.ts <= mid {
        WindowPast(front, mid + 1, hi, last.ts);
      }
    }
  }

  // ---------------------------------------------------------------- identities are not equality

  lemma NormOne(o: Observation)
    ensures Norm([o]) == [o]
  {
    assert [] + [o] == [o];
    NormSnoc([], o);
  }

  lemma NormTwo(a: Observation, b: Observation)
    ensures Norm([a, b]) == Add([a], b)
    ensures Contains([a], Identity(b)) <==> Identity(a) == Identity(b)
  {
    NormOne(a);
    NormSnoc([a], b);
    assert [a] + [b] == [a, b] && [] + [a] == [a];
    ContainsSnoc([], a, Identity(b));
  }

  /** A repeated NaN is dropped, although it is not equal to the first. */
  lemma RepeatedNaNDropped(o: Observation)
    requires IsNaN(o.valueBits)
    ensures Norm([o, o]) == [o] && !Equal(o, o)
  {
    NormTwo(o, o);
    NaNsUnequal(o, o);
  }

  /** 0.0 and -0.0 are both kept, although they are equal. */
  lemma EqualZerosKept(o: Observation)
    requires IsZero(o.valueBits)
    ensures var n := o.(valueBits := Negated(o.valueBits)); Norm([o, n]) == [o, n] && Equal(o, n)
  {
    var n := o.(valueBits := Negated(o.valueBits));
    NormTwo(o, n);
    ZerosKeptApart(o);
    InsertLast(n, [o]);
    assert [o] + [n] == [o, n];
  }
}
