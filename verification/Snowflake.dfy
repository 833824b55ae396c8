/**
 The lock-free id generator (crates/opsense-mlib/src/snowflake_id.rs) as a system of threads that
 share one packed 64-bit word. Every thread repeats: read the clock, load the word, compare and
 swap. The clock may return anything, also go backwards, and a swap may fail for no reason.

 Bit fields are written as arithmetic: a shift left by 12 is a multiplication by 4096 modulo 2^64,
 and an "or" of disjoint fields is a sum.
 */
module Snowflake {
  import opened Wrappers

  const WORD: nat := 0x1_0000_0000_0000_0000
  const SEQS: nat := 0x1000
  const SPAN: nat := 0x100_0000_0000
  const TS_LIMIT: nat := 0x10_0000_0000_0000

  /** The timestamp and the sequence number inside an id. */
  datatype Stamp = Stamp(ts: nat, seqNo: nat)

  datatype Issue = Issue(stamp: Stamp, id: nat)

  datatype Thread =
    | Ready
    | Timed(ts: nat)
    | Loaded(ts: nat, word: nat)

  datatype Config = Config(machine: nat, start: nat)

  datatype System = System(word: nat, threads: map<nat, Thread>, issued: seq<Issue>)

  datatype Event =
    | Clock(thread: nat, now: nat)
    | Load(thread: nat)
    | Swap(thread: nat, spurious: bool)

  /** `now_ms.saturating_sub(start_time)`. */
  function Elapsed(cfg: Config, now: nat): nat {
    if now >= cfg.start then now - cfg.start else 0
  }

  /** Milliseconds since the start time; a reading before it counts as 0. */
  lemma ElapsedExactly(cfg: Config, now: nat, ts: nat)
    ensures Elapsed(cfg, now) == ts <==> now == cfg.start + ts || (now < cfg.start && ts == 0)
  {
  }

  /** `(new_ts << 12) | new_seq` in 64 bits. */
  function Pack(s: Stamp): nat {
    (s.ts * SEQS) % WORD + s.seqNo
  }

  /** The stamp after the packed `word` at time `ts`; None when the sequence is used up and the thread must spin. */
  function Next(ts: nat, word: nat): Option<Stamp> {
    if ts > word / SEQS then Some(Stamp(ts, 0))
    else if (word % SEQS + 1) % SEQS == 0 then None
    else Some(Stamp(word / SEQS, word % SEQS + 1))
  }

  function IdOf(cfg: Config, s: Stamp): nat {
    (s.ts % SPAN) * 0x40_0000 + (s.seqNo % SEQS) * 0x400 + cfg.machine % 0x400
  }

  function ThreadOf(sys: System, t: nat): Thread {
    if t in sys.threads then sys.threads[t] else Ready
  }

  function Step(cfg: Config, sys: System, e: Event): System {
    match e
    case Clock(t, now) =>
      if ThreadOf(sys, t).Ready? then sys.(threads := sys.threads[t := Timed(Elapsed(cfg, now))]) else sys
    case Load(t) =>
      var th := ThreadOf(sys, t);
      if th.Timed? then sys.(threads := sys.threads[t := Loaded(th.ts, sys.word)]) else sys
    case Swap(t, spurious) =>
      var th := ThreadOf(sys, t);
      if !th.Loaded? then sys
      else
        var next, retry := Next(th.ts, th.word), sys.threads[t := Ready];
        if next.None? || spurious || sys.word != th.word then sys.(threads := retry)
        else System(Pack(next.value), retry, sys.issued + [Issue(next.value, IdOf(cfg, next.value))])
  }

  function Init(): System {
    System(0, map[], [])
  }

  /** The system after any interleaving of steps. */
  function Run(cfg: Config, events: seq<Event>): System {
    if events == [] then Init() else Step(cfg, Run(cfg, events[..|events| - 1]), events[|events| - 1])
  }

  ghost predicate ReadingIn(cfg: Config, e: Event, lo: nat, hi: nat) {
    e.Clock? ==> e.now < WORD && lo <= Elapsed(cfg, e.now) <= hi
  }

  /** All clock readings of the run lie between `lo` and `hi` milliseconds after the start time. */
  ghost predicate ReadingsIn(cfg: Config, events: seq<Event>, lo: nat, hi: nat) {
    forall i | 0 <= i < |events| :: ReadingIn(cfg, events[i], lo, hi)
  }

  ghost predicate DistinctIds(issued: seq<Issue>) {
    forall i, j | 0 <= i < j < |issued| :: issued[i].id != issued[j].id
  }

  // ---------------------------------------------------------------- what holds of every run

  ghost predicate Tagged(cfg: Config, issued: seq<Issue>) {
    forall i | 0 <= i < |issued| :: issued[i].id == IdOf(cfg, issued[i].stamp) && issued[i].stamp.seqNo < SEQS
  }

  lemma {:induction false} RunTagged(cfg: Config, events: seq<Event>)
    ensures Tagged(cfg, Run(cfg, events).issued)
  {
    if events != [] {
      RunTagged(cfg, events[..|events| - 1]);
    }
  }

  /** Every id fits in a non-negative `i64` and carries the machine number, whatever the clock does. */
  lemma {:induction false} IdsNonNegative(cfg: Config, events: seq<Event>, i: nat)
    requires cfg.machine < 0x400 && i < |Run(cfg, events).issued|
    ensures Run(cfg, events).issued[i].id < 0x4000_0000_0000_0000
    ensures Run(cfg, events).issued[i].id % 0x400 == cfg.machine
  {
    RunTagged(cfg, events);
  }

  /** Generators with different machine numbers never issue the same id. */
  lemma {:induction false} MachinesApart(a: Config, b: Config, ea: seq<Event>, eb: seq<Event>, i: nat, j: nat)
    requires a.machine < 0x400 && b.machine < 0x400 && a.machine != b.machine
    requires i < |Run(a, ea).issued| && j < |Run(b, eb).issued|
    ensures Run(a, ea).issued[i].id != Run(b, eb).issued[j].id
  {
    IdsNonNegative(a, ea, i);
    IdsNonNegative(b, eb, j);
  }

  // ---------------------------------------------------------------- stamps only go up

  ghost function Value(s: Stamp): nat {
    s.ts * SEQS + s.seqNo
  }

  ghost predicate ThreadIn(sys: System, t: nat, lo: nat, hi: nat)
    requires t in sys.threads
  {
    !sys.threads[t].Ready? ==> lo <= sys.threads[t].ts <= hi
  }

  /** Below 2^52 ms the word is the newest stamp and stamps strictly increase in the order of the swaps. */
  ghost predicate Ascending(sys: System, lo: nat, hi: nat) {
    && (forall t {:trigger ThreadIn(sys, t, lo, hi)} | t in sys.threads :: ThreadIn(sys, t, lo, hi))
    && (forall i | 0 <= i < |sys.issued| :: lo <= sys.issued[i].stamp.ts <= hi && sys.issued[i].stamp.seqNo < SEQS)
    && (forall i, j | 0 <= i < j < |sys.issued| :: Value(sys.issued[i].stamp) < Value(sys.issued[j].stamp))
    && sys.word == if sys.issued == [] then 0 else Value(sys.issued[|sys.issued| - 1].stamp)
  }

  lemma NextAscends(ts: nat, word: nat, lo: nat, hi: nat)
    requires lo <= ts <= hi < TS_LIMIT && (word == 0 || lo <= word / SEQS <= hi) && Next(ts, word).Some?
    ensures var s := Next(ts, word).value;
            lo <= s.ts <= hi && s.seqNo < SEQS && word < Value(s) == Pack(s)
  {
  }

  lemma StepAscending(cfg: Config, sys: System, e: Event, lo: nat, hi: nat)
    requires Ascending(sys, lo, hi) && ReadingIn(cfg, e, lo, hi) && hi < TS_LIMIT
    ensures Ascending(Step(cfg, sys, e), lo, hi)
  {
    var sys', th := Step(cfg, sys, e), ThreadOf(sys, e.thread);
    assert e.thread in sys.threads ==> ThreadIn(sys, e.thread, lo, hi);
    forall t | t in sys'.threads ensures ThreadIn(sys', t, lo, hi) {
      assert t in sys.threads ==> ThreadIn(sys, t, lo, hi);
    }
    if e.Swap? && th.Loaded? && sys.word == th.word && Next(th.ts, th.word).Some? {
      SwapAscends(cfg, sys, th.ts, lo, hi);
    }
  }

  /** A successful swap issues a larger stamp. */
  lemma SwapAscends(cfg: Config, sys: System, ts: nat, lo: nat, hi: nat)
    requires Ascending(sys, lo, hi) && lo <= ts <= hi < TS_LIMIT && Next(ts, sys.word).Some?
    ensures var s := Next(ts, sys.word).value;
            && lo <= s.ts <= hi && s.seqNo < SEQS && Pack(s) == Value(s)
            && forall i | 0 <= i < |sys.issued| :: Value(sys.issued[i].stamp) < Value(s)
  {
    if sys.issued != [] {
      TopOf(sys.issued[|sys.issued| - 1].stamp);
    }
    NextAscends(ts, sys.word, lo, hi);
  }

  lemma TopOf(s: Stamp)
    requires s.seqNo < SEQS
    ensures Value(s) / SEQS == s.ts
  {
  }

  lemma {:induction false} RunAscending(cfg: Config, events: seq<Event>, lo: nat, hi: nat)
    requires ReadingsIn(cfg, events, lo, hi) && hi < TS_LIMIT
    ensures Ascending(Run(cfg, events), lo, hi)
  {
    if events != [] {
      RunAscending(cfg, events[..|events| - 1], lo, hi);
      StepAscending(cfg, Run(cfg, events[..|events| - 1]), events[|events| - 1], lo, hi);
    }
  }

  /** How many of these ids carry the timestamp `ts`. */
  ghost function CountAt(issued: seq<Issue>, ts: nat): nat {
    if issued == [] then 0
    else CountAt(issued[..|issued| - 1], ts) + if issued[|issued| - 1].stamp.ts == ts then 1 else 0
  }

  /** The sequence number counts the ids before it with the same timestamp; at time 0 it starts with 1. */
  ghost predicate Numbered(issued: seq<Issue>, i: nat)
    requires i < |issued|
  {
    var s := issued[i].stamp;
    s.seqNo == CountAt(issued[..i], s.ts) + if s.ts == 0 then 1 else 0
  }

  lemma {:induction false} NothingLater(issued: seq<Issue>, ts: nat)
    requires forall i | 0 <= i < |issued| :: issued[i].stamp.ts < ts
    ensures CountAt(issued, ts) == 0
  {
    if issued != [] {
      NothingLater(issued[..|issued| - 1], ts);
    }
  }

  /**
   The next stamp in terms of the newest one: the time of the reading if that is later, otherwise the next number of
   the newest time, of which there are 4096.
   */
  lemma NextExactly(sys: System, ts: nat, lo: nat, hi: nat)
    requires Ascending(sys, lo, hi)
    ensures var newest := if sys.issued == [] then Stamp(0, 0) else sys.issued[|sys.issued| - 1].stamp;
            Next(ts, sys.word) ==
            if ts > newest.ts then Some(Stamp(ts, 0))
            else if newest.seqNo == 4095 then None
            else Some(Stamp(newest.ts, newest.seqNo + 1))
  {
    if sys.issued != [] {
      TopOf(sys.issued[|sys.issued| - 1].stamp);
    }
  }

  /** A successful swap continues the count of the newest timestamp, or starts a new one. */
  lemma NumberedNext(sys: System, ts: nat, lo: nat, hi: nat, next: Issue)
    requires Ascending(sys, lo, hi) && Next(ts, sys.word) == Some(next.stamp)
    requires sys.issued != [] ==> Numbered(sys.issued, |sys.issued| - 1)
    ensures Numbered(sys.issued + [next], |sys.issued|)
  {
    var issued, n := sys.issued, |sys.issued|;
    assert (issued + [next])[..n] == issued;
    if issued == [] {
      assert next.stamp == if ts > 0 then Stamp(ts, 0) else Stamp(0, 1);
    } else {
      var last := issued[n - 1].stamp;
      TopOf(last);
      assert issued[..n] == issued;
      if next.stamp.ts > last.ts {
        forall i | 0 <= i < n ensures issued[i].stamp.ts <= last.ts {
          TopOf(issued[i].stamp);
        }
        NothingLater(issued, next.stamp.ts);
      }
    }
  }

  /**
   In every run below 2^52 ms, the ids of one millisecond are numbered without gaps, in the order of the swaps: the
   first has number 0, or 1 at the start time.
   */
  lemma {:induction false} RunNumbered(cfg: Config, events: seq<Event>, lo: nat, hi: nat)
    requires ReadingsIn(cfg, events, lo, hi) && hi < TS_LIMIT
    ensures forall i: nat | i < |Run(cfg, events).issued| :: Numbered(Run(cfg, events).issued, i)
  {
    if events != [] {
      var front, e := events[..|events| - 1], events[|events| - 1];
      var sys, sys' := Run(cfg, front), Run(cfg, events);
      RunNumbered(cfg, front, lo, hi);
      RunAscending(cfg, front, lo, hi);
      forall i: nat | i < |sys'.issued| ensures Numbered(sys'.issued, i) {
        if i < |sys.issued| {
          assert sys'.issued[..i] == sys.issued[..i] && Numbered(sys.issued, i);
        } else {
          NumberedNext(sys, ThreadOf(sys, e.thread).ts, lo, hi, sys'.issued[i]);
        }
      }
    }
  }

  /** The fields of an id: 40 bits of time, 12 of the sequence number, 10 of the machine. */
  lemma IdFields(cfg: Config, s: Stamp)
    requires s.seqNo < SEQS && cfg.machine < 0x400
    ensures var id := IdOf(cfg, s);
            id / 0x40_0000 == s.ts % SPAN && id / 0x400 % SEQS == s.seqNo && id % 0x400 == cfg.machine
  {
    var id := IdOf(cfg, s);
    assert id / 0x400 == (s.ts % SPAN) * SEQS + s.seqNo;
  }

  /** Ids increase in the order of the swaps while the timestamps stay in one block of 2^40 ms. */
  lemma IdsIncrease(cfg: Config, events: seq<Event>, lo: nat, hi: nat, i: nat, j: nat)
    requires ReadingsIn(cfg, events, lo, hi) && hi < TS_LIMIT
    requires i < j < |Run(cfg, events).issued|
    requires Run(cfg, events).issued[i].stamp.ts / SPAN == Run(cfg, events).issued[j].stamp.ts / SPAN
    ensures Run(cfg, events).issued[i].id < Run(cfg, events).issued[j].id
  {
    RunAscending(cfg, events, lo, hi);
    RunTagged(cfg, events);
    LargerId(cfg, Run(cfg, events).issued[i].stamp, Run(cfg, events).issued[j].stamp);
  }

  lemma LargerId(cfg: Config, a: Stamp, b: Stamp)
    requires Value(a) < Value(b) && a.seqNo < SEQS && b.seqNo < SEQS && a.ts / SPAN == b.ts / SPAN
    ensures IdOf(cfg, a) < IdOf(cfg, b)
  {
    assert a.ts <= b.ts;
    assert a.ts % SPAN <= b.ts % SPAN && (a.ts < b.ts ==> a.ts % SPAN < b.ts % SPAN);
  }

  // ---------------------------------------------------------------- exactly when ids are unique

  lemma SameIdSameStamp(cfg: Config, a: Stamp, b: Stamp, lo: nat, hi: nat)
    requires a.seqNo < SEQS && b.seqNo < SEQS && lo <= a.ts <= hi && lo <= b.ts <= hi && hi - lo < SPAN
    requires IdOf(cfg, a) == IdOf(cfg, b)
    ensures a == b
  {
    assert a.ts % SPAN == b.ts % SPAN && a.seqNo == b.seqNo;
  }

  lemma UniqueIds(cfg: Config, events: seq<Event>, lo: nat, hi: nat)
    requires ReadingsIn(cfg, events, lo, hi) && hi - lo < SPAN && hi < TS_LIMIT
    ensures DistinctIds(Run(cfg, events).issued)
  {
    var issued := Run(cfg, events).issued;
    RunAscending(cfg, events, lo, hi);
    RunTagged(cfg, events);
    forall i, j | 0 <= i < j < |issued| ensures issued[i].id != issued[j].id {
      if issued[i].id == issued[j].id {
        SameIdSameStamp(cfg, issued[i].stamp, issued[j].stamp, lo, hi);
      }
    }
  }

  /** One undisturbed round of the retry loop. */
  lemma TryRuns(cfg: Config, events: seq<Event>, t: nat, now: nat, fails: bool)
    requires ThreadOf(Run(cfg, events), t).Ready?
    ensures var sys, sys' := Run(cfg, events), Run(cfg, events + [Clock(t, now), Load(t), Swap(t, fails)]);
            var next := Next(Elapsed(cfg, now), sys.word);
            && ThreadOf(sys', t).Ready?
            && (if next.None? || fails then sys'.word == sys.word && sys'.issued == sys.issued
                else
                  && sys'.word == Pack(next.value)
                  && sys'.issued == sys.issued + [Issue(next.value, IdOf(cfg, next.value))])
  {
    var e1 := events + [Clock(t, now)];
    var e2 := events + [Clock(t, now), Load(t)];
    var e3 := events + [Clock(t, now), Load(t), Swap(t, fails)];
    assert e1[..|e1| - 1] == events && e2[..|e2| - 1] == e1 && e3[..|e3| - 1] == e2;
    var s0 := Run(cfg, events);
    assert Run(cfg, e1) == Step(cfg, s0, Clock(t, now));
    assert Run(cfg, e2) == Step(cfg, Run(cfg, e1), Load(t));
    assert ThreadOf(Run(cfg, e2), t) == Loaded(Elapsed(cfg, now), s0.word) && Run(cfg, e2).word == s0.word;
    assert Run(cfg, e3) == Step(cfg, Run(cfg, e2), Swap(t, fails));
  }

  /** One undisturbed call of `generate` by thread 0 at elapsed time `ts`. */
  function Call(cfg: Config, ts: nat): seq<Event> {
    [Clock(0, cfg.start + ts), Load(0), Swap(0, false)]
  }

  /** What an undisturbed call does to a system whose thread 0 is ready. */
  lemma CallRuns(cfg: Config, events: seq<Event>, ts: nat, s: Stamp)
    requires ThreadOf(Run(cfg, events), 0).Ready? && Next(ts, Run(cfg, events).word) == Some(s)
    ensures var sys' := Run(cfg, events + Call(cfg, ts));
            && ThreadOf(sys', 0).Ready? && sys'.word == Pack(s)
            && sys'.issued == Run(cfg, events).issued + [Issue(s, IdOf(cfg, s))]
  {
    TryRuns(cfg, events, 0, cfg.start + ts, false);
  }

  lemma CallReadings(cfg: Config, events: seq<Event>, ts: nat, lo: nat, hi: nat)
    requires ReadingsIn(cfg, events, lo, hi) && lo <= ts <= hi && cfg.start + ts < WORD
    ensures ReadingsIn(cfg, events + Call(cfg, ts), lo, hi)
  {
  }

  /** Past 2^52 ms the shifted timestamp loses its top bits and the same stamp is issued again. */
  lemma CollisionByOverflow(cfg: Config, lo: nat, hi: nat) returns (events: seq<Event>)
    requires lo <= hi && cfg.start + hi < WORD && hi >= TS_LIMIT
    ensures ReadingsIn(cfg, events, lo, hi) && !DistinctIds(Run(cfg, events).issued)
  {
    var one, s := [] + Call(cfg, hi), Stamp(hi, 0);
    events := one + Call(cfg, hi);
    CallReadings(cfg, [], hi, lo, hi);
    CallReadings(cfg, one, hi, lo, hi);
    CallRuns(cfg, [], hi, s);
    assert Next(hi, Pack(s)) == Some(s);
    CallRuns(cfg, one, hi, s);
    assert Run(cfg, events).issued[0].id == Run(cfg, events).issued[1].id;
  }

  /** 2^40 ms apart the ids repeat. */
  lemma CollisionByWrap(cfg: Config, lo: nat, hi: nat) returns (events: seq<Event>)
    requires 0 < lo && cfg.start + hi < WORD && hi < TS_LIMIT && hi - lo >= SPAN
    ensures ReadingsIn(cfg, events, lo, hi) && !DistinctIds(Run(cfg, events).issued)
  {
    var one := [] + Call(cfg, lo);
    events := one + Call(cfg, lo + SPAN);
    CallReadings(cfg, [], lo, lo, hi);
    CallReadings(cfg, one, lo + SPAN, lo, hi);
    CallRuns(cfg, [], lo, Stamp(lo, 0));
    CallRuns(cfg, one, lo + SPAN, Stamp(lo + SPAN, 0));
    assert Run(cfg, events).issued[0].id == Run(cfg, events).issued[1].id;
  }

  /** At time 0 the first stamp is (0, 1), because the initial word counts as (0, 0). */
  lemma CollisionFromZero(cfg: Config, hi: nat) returns (events: seq<Event>)
    requires cfg.start + hi < WORD && SPAN <= hi < TS_LIMIT
    ensures ReadingsIn(cfg, events, 0, hi) && !DistinctIds(Run(cfg, events).issued)
  {
    var one := [] + Call(cfg, 0);
    var two := one + Call(cfg, SPAN);
    events := two + Call(cfg, SPAN);
    CallReadings(cfg, [], 0, 0, hi);
    CallReadings(cfg, one, SPAN, 0, hi);
    CallReadings(cfg, two, SPAN, 0, hi);
    CallRuns(cfg, [], 0, Stamp(0, 1));
    CallRuns(cfg, one, SPAN, Stamp(SPAN, 0));
    CallRuns(cfg, two, SPAN, Stamp(SPAN, 1));
    assert Run(cfg, events).issued[0].id == Run(cfg, events).issued[2].id;
  }

  /** No run with these readings repeats an id. */
  ghost predicate AlwaysDistinct(cfg: Config, lo: nat, hi: nat) {
    forall events: seq<Event> | ReadingsIn(cfg, events, lo, hi) :: DistinctIds(Run(cfg, events).issued)
  }

  lemma DistinctExactly(cfg: Config, lo: nat, hi: nat)
    requires lo <= hi && cfg.start + hi < WORD
    ensures AlwaysDistinct(cfg, lo, hi) <==> hi - lo < SPAN && hi < TS_LIMIT
  {
    if hi >= TS_LIMIT {
      var events := CollisionByOverflow(cfg, lo, hi);
    } else if hi - lo >= SPAN && lo > 0 {
      var events := CollisionByWrap(cfg, lo, hi);
    } else if hi - lo >= SPAN {
      var events := CollisionFromZero(cfg, hi);
    } else {
      forall events: seq<Event> | ReadingsIn(cfg, events, lo, hi) ensures DistinctIds(Run(cfg, events).issued) {
        UniqueIds(cfg, events, lo, hi);
      }
    }
  }

  // ---------------------------------------------------------------- the retry loop of one thread

  /** The events of a thread that keeps trying with these clock readings and swap failures. */
  ghost function Tries(t: nat, clock: seq<(nat, bool)>): seq<Event> {
    if clock == [] then []
    else
      var (now, fails) := clock[|clock| - 1];
      Tries(t, clock[..|clock| - 1]) + [Clock(t, now), Load(t), Swap(t, fails)]
  }

  class SnowflakeId {
    const cfg: Config
    var state: nat

    constructor (machine: nat, start: nat)
      requires machine < 0x400
      ensures cfg == Config(machine, start) && state == 0
    {
      cfg, state := Config(machine, start), 0;
    }

    /**
     `generate` while no other thread interferes: each entry of `clock` is a reading of the clock
     and whether the swap then fails by itself. None means that the readings ran out first. The
     word and the id are those of thread `t` in the system.
     */
    method Generate(clock: seq<(nat, bool)>, ghost t: nat, ghost events: seq<Event>)
      returns (id: Option<nat>, used: nat)
      requires Run(cfg, events).word == state && ThreadOf(Run(cfg, events), t).Ready?
      modifies this
      ensures used <= |clock| && (id.None? ==> used == |clock|)
      ensures var before, after := Run(cfg, events), Run(cfg, events + Tries(t, clock[..used]));
              && after.word == state && ThreadOf(after, t).Ready?
              && (if id.Some? then |after.issued| == |before.issued| + 1 && after.issued[|before.issued|].id == id.value
                  else after.issued == before.issued)
    {
      used := 0;
      ghost var past := events;
      assert events + [] == events;
      while used < |clock|
        invariant used <= |clock| && past == events + Tries(t, clock[..used])
        invariant state == Run(cfg, past).word && ThreadOf(Run(cfg, past), t).Ready?
        invariant Run(cfg, past).issued == Run(cfg, events).issued
      {
        var (now, fails) := clock[used];
        var currentTs := Elapsed(cfg, now);
        var oldState := state;
        TryRuns(cfg, past, t, now, fails);
        TriesSnoc(t, clock, used, events);
        past := past + [Clock(t, now), Load(t), Swap(t, fails)];
        used := used + 1;
        var oldTs, oldSeq := oldState / SEQS, oldState % SEQS;
        var stamp := Stamp(currentTs, 0);
        if currentTs <= oldTs {
          var nextSeq := (oldSeq + 1) % SEQS;
          if nextSeq == 0 {
            continue;
          }
          stamp := Stamp(oldTs, nextSeq);
        }
        if !fails {
          state := Pack(stamp);
          return Some(IdOf(cfg, stamp)), used;
        }
      }
      return None, used;
    }
  }

  lemma TriesSnoc(t: nat, clock: seq<(nat, bool)>, k: nat, events: seq<Event>)
    requires k < |clock|
    ensures events + Tries(t, clock[..k + 1]) ==
            (events + Tries(t, clock[..k])) + [Clock(t, clock[k].0), Load(t), Swap(t, clock[k].1)]
  {
    assert clock[..k + 1][..k] == clock[..k];
  }
}
