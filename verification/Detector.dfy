/**
 A node's view of its peers (crates/opsense-mlib/src/gossip.rs): alive until silent for too long,
 then suspect, then dead. The class updates the view in place; the run theorems say what must
 have happened before a peer can be in each state.
 */
module Detector {
  import opened Gossip
  import opened Words
  import opened Wrappers

  datatype NodeState = Alive | Suspect | Dead

  datatype Peer = Peer(url: string, state: NodeState, lastSeen: nat, confirmations: nat)

  type Peers = map<string, Peer>

  /** `now.saturating_sub(last_seen)`. */
  function Silence(now: nat, peer: Peer): nat {
    if now >= peer.lastSeen then now - peer.lastSeen else 0
  }

  // ---------------------------------------------------------------- the steps on values

  predicate Stale(peer: Peer, window: nat, now: nat) {
    peer.state == Alive && Silence(now, peer) > window
  }

  predicate Reapable(peer: Peer, quorum: nat, limit: nat, now: nat) {
    peer.state == Suspect && (Silence(now, peer) > limit || peer.confirmations >= quorum)
  }

  function SuspectIfStale(peer: Peer, window: nat, now: nat): Peer {
    if Stale(peer, window, now) then peer.(state := Suspect, confirmations := 0) else peer
  }

  function DeadIfReapable(peer: Peer, quorum: nat, limit: nat, now: nat): Peer {
    if Reapable(peer, quorum, limit, now) then peer.(state := Dead) else peer
  }

  function Suspected(peers: Peers, window: nat, now: nat): Peers {
    map id | id in peers :: SuspectIfStale(peers[id], window, now)
  }

  function Reaped(peers: Peers, quorum: nat, limit: nat, now: nat): Peers {
    map id | id in peers :: DeadIfReapable(peers[id], quorum, limit, now)
  }

  function Seen(peers: Peers, self: string, url: string, id: string, now: nat): Peers {
    if id == self then peers else peers[id := Peer(url, Alive, now, 0)]
  }

  predicate StateIs(peers: Peers, id: string, s: NodeState) {
    id in peers && peers[id].state == s
  }

  function Reported(peers: Peers, reporter: string, target: string): Peers {
    if StateIs(peers, reporter, Dead) || !StateIs(peers, target, Suspect) then peers
    else peers[target := peers[target].(confirmations := peers[target].confirmations + 1)]
  }

  /** The ids whose peer satisfies `p`, in ascending order, each once. */
  ghost predicate Exactly(peers: Peers, ids: seq<string>, p: Peer -> bool) {
    && (forall id :: id in ids <==> id in peers && p(peers[id]))
    && Ascending(ids) && (forall i, j | 0 <= i < j < |ids| :: ids[i] != ids[j])
  }

  ghost predicate Ascending(ids: seq<string>) {
    forall i, j | 0 <= i < j < |ids| :: Less(ids[i], ids[j])
  }

  /** Everything that was visited comes before everything that is left. */
  ghost predicate Visited(all: set<string>, rest: set<string>) {
    rest <= all && forall x, y | x in all - rest && y in rest :: Less(x, y)
  }

  predicate Least(rest: set<string>, id: string) {
    id in rest && forall j | j in rest :: j == id || Less(id, j)
  }

  /** A tick has visited all peers but `rest`: those that satisfy `p` were changed by `f` and listed. */
  ghost predicate Ticked(before: Peers, now: Peers, rest: set<string>, newly: seq<string>, p: Peer -> bool,
                         f: Peer -> Peer) {
    && now.Keys == before.Keys && Visited(before.Keys, rest) && Ascending(newly)
    && (forall id | id in before ::
          now[id] == if id !in rest && p(before[id]) then f(before[id]) else before[id])
    && (forall id :: id in newly <==> id in before && id !in rest && p(before[id]))
  }

  lemma LeastThere(rest: set<string>)
    requires rest != {}
    ensures exists id :: id in rest && Least(rest, id)
  {
    var k := LeastExists(rest);
    assert Least(rest, k);
  }

  lemma TickedStep(before: Peers, now: Peers, rest: set<string>, newly: seq<string>, p: Peer -> bool, f: Peer -> Peer,
                   id: string)
    requires Ticked(before, now, rest, newly, p, f) && Least(rest, id)
    ensures id in before && now[id] == before[id]
    ensures if p(before[id]) then Ticked(before, now[id := f(before[id])], rest - {id}, newly + [id], p, f)
            else Ticked(before, now, rest - {id}, newly, p, f)
  {
    var all := before.Keys;
    forall x, y | x in all - (rest - {id}) && y in rest - {id} ensures Less(x, y) {
      assert x == id || x in all - rest;
    }
    forall i, j | 0 <= i < j < |newly + [id]| ensures Less((newly + [id])[i], (newly + [id])[j]) {
      assert newly[i] in newly;
    }
  }

  lemma TickedEnd(before: Peers, now: Peers, newly: seq<string>, p: Peer -> bool, f: Peer -> Peer)
    requires Ticked(before, now, {}, newly, p, f)
    ensures Exactly(before, newly, p)
    ensures now == map id | id in before :: if p(before[id]) then f(before[id]) else before[id]
  {
    forall i, j | 0 <= i < j < |newly| ensures newly[i] != newly[j] {
      LessTotal(newly[i], newly[j]);
    }
  }

  // ---------------------------------------------------------------- the node

  class GossipNode {
    const nodeId: string
    const known: InfoState
    const quorum: nat
    var published: Info
    var peers: Peers
    var settledSince: nat
    var dirty: bool

    constructor (id: string, q: nat, now: nat)
      ensures nodeId == id && quorum == (if q < 1 then 1 else q) && peers == map[] && settledSince == now && !dirty
      ensures fresh(known) && known.Value() == State(0, map[]) && published == Info("", 0, "")
    {
      nodeId, quorum := id, if q < 1 then 1 else q;
      known := new InfoState();
      published, peers, settledSince, dirty := Info("", 0, ""), map[], now, false;
    }

    method Publish(info: Info)
      modifies `published, `dirty, known
      ensures published == info && dirty && known.Value() == WithLocal(old(known.Value()), nodeId, info)
    {
      published := info;
      known.SetLocal(nodeId, info);
      dirty := true;
    }

    method Apply(remote: State) returns (changed: bool)
      modifies `dirty, known
      ensures known.Value() == Merged(old(known.Value()), remote)
      ensures (changed <==> known.entries != old(known.entries)) && dirty == (old(dirty) || changed)
    {
      changed := known.Apply(remote);
      dirty := dirty || changed;
    }

    method MarkAlive(url: string, id: string, now: nat)
      modifies `peers, `settledSince
      ensures peers == Seen(old(peers), nodeId, url, id, now)
      ensures settledSince == if id != nodeId && !StateIs(old(peers), id, Alive) then now else old(settledSince)
    {
      if id == nodeId {
        return;
      }
      var changed := true;
      if id in peers {
        changed := peers[id].state != Alive;
        peers := peers[id := peers[id].(url := url, state := Alive, lastSeen := now, confirmations := 0)];
      } else {
        peers := peers[id := Peer(url, Alive, now, 0)];
      }
      if changed {
        settledSince := now;
      }
    }

    /** Alive peers that were silent for longer than `window` become suspect. */
    method TickSuspects(window: nat, now: nat) returns (newly: seq<string>)
      modifies `peers, `settledSince
      ensures peers == Suspected(old(peers), window, now)
      ensures Exactly(old(peers), newly, (p: Peer) => Stale(p, window, now))
      ensures settledSince == if newly != [] then now else old(settledSince)
    {
      ghost var before, stale := peers, (p: Peer) => Stale(p, window, now);
      ghost var suspect := (p: Peer) => p.(state := Suspect, confirmations := 0);
      newly := [];
      var rest := peers.Keys;
      while rest != {}
        invariant Ticked(before, peers, rest, newly, stale, suspect) && settledSince == old(settledSince)
        decreases rest
      {
        LeastThere(rest);
        var id :| id in rest && Least(rest, id);
        TickedStep(before, peers, rest, newly, stale, suspect, id);
        var peer := peers[id];
        if peer.state == Alive && Silence(now, peer) > window {
          peers := peers[id := peer.(state := Suspect, confirmations := 0)];
          newly := newly + [id];
        }
        rest := rest - {id};
      }
      TickedEnd(before, peers, newly, stale, suspect);
      if newly != [] {
        settledSince := now;
      }
    }

    /** Suspect peers die when silent for longer than `limit`, or when enough reports confirm it. */
    method TickReap(limit: nat, now: nat) returns (newly: seq<string>)
      modifies `peers, `settledSince
      ensures peers == Reaped(old(peers), quorum, limit, now)
      ensures Exactly(old(peers), newly, (p: Peer) => Reapable(p, quorum, limit, now))
      ensures settledSince == if newly != [] then now else old(settledSince)
    {
      ghost var before, reapable := peers, (p: Peer) => Reapable(p, quorum, limit, now);
      ghost var dead := (p: Peer) => p.(state := Dead);
      newly := [];
      var rest := peers.Keys;
      while rest != {}
        invariant Ticked(before, peers, rest, newly, reapable, dead) && settledSince == old(settledSince)
        decreases rest
      {
        LeastThere(rest);
        var id :| id in rest && Least(rest, id);
        TickedStep(before, peers, rest, newly, reapable, dead, id);
        var peer := peers[id];
        rest := rest - {id};
        if peer.state != Suspect {
          continue;
        }
        if Silence(now, peer) > limit || peer.confirmations >= quorum {
          peers := peers[id := peer.(state := Dead)];
          newly := newly + [id];
        }
      }
      TickedEnd(before, peers, newly, reapable, dead);
      if newly != [] {
        settledSince := now;
      }
    }

    /** A report that `target` does not answer; reports of dead peers do not count. */
    method ReportMissing(reporter: string, target: string)
      modifies `peers
      ensures peers == Reported(old(peers), reporter, target)
    {
      if reporter in peers && peers[reporter].state == Dead {
        return;
      }
      if target in peers && peers[target].state == Suspect {
        var peer := peers[target];
        peers := peers[target := peer.(confirmations := peer.confirmations + 1)];
      }
    }

    method Remove(id: string)
      modifies `peers
      ensures peers == old(peers) - {id}
    {
      peers := peers - {id};
    }
  }

  // ---------------------------------------------------------------- runs

  datatype Event =
    | Hear(url: string, id: string, now: nat)
    | Suspects(window: nat, now: nat)
    | Reap(limit: nat, now: nat)
    | Report(reporter: string, target: string)
    | Leave(id: string)

  datatype Config = Config(self: string, quorum: nat)

  function Step(cfg: Config, peers: Peers, e: Event): Peers {
    match e
    case Hear(url, id, now) => Seen(peers, cfg.self, url, id, now)
    case Suspects(window, now) => Suspected(peers, window, now)
    case Reap(limit, now) => Reaped(peers, cfg.quorum, limit, now)
    case Report(reporter, target) => Reported(peers, reporter, target)
    case Leave(id) => peers - {id}
  }

  function Run(cfg: Config, events: seq<Event>): Peers {
    if events == [] then map[] else Step(cfg, Run(cfg, events[..|events| - 1]), events[|events| - 1])
  }

  /** When the node last heard from `id`, counting from when it last joined. */
  function LastHeard(cfg: Config, events: seq<Event>, id: string): Option<nat> {
    if events == [] then None
    else
      var e := events[|events| - 1];
      if e.Hear? && e.id == id && id != cfg.self then Some(e.now)
      else if e.Leave? && e.id == id then None
      else LastHeard(cfg, events[..|events| - 1], id)
  }

  /** The url that `id` gave at that time. */
  function LastUrl(cfg: Config, events: seq<Event>, id: string): Option<string> {
    if events == [] then None
    else
      var e := events[|events| - 1];
      if e.Hear? && e.id == id && id != cfg.self then Some(e.url)
      else if e.Leave? && e.id == id then None
      else LastUrl(cfg, events[..|events| - 1], id)
  }

  /** `id` turns suspect at the last event. */
  predicate TurnsSuspect(cfg: Config, events: seq<Event>, id: string)
    requires events != []
  {
    StateIs(Run(cfg, events), id, Suspect) && !StateIs(Run(cfg, events[..|events| - 1]), id, Suspect)
  }

  /**
   The last event is a report about `id`, by anybody who is not known to be dead: a stranger, `id` or the node
   itself too.
   */
  predicate CountedReport(cfg: Config, events: seq<Event>, id: string)
    requires events != []
  {
    var e := events[|events| - 1];
    e.Report? && e.target == id && !StateIs(Run(cfg, events[..|events| - 1]), e.reporter, Dead)
  }

  /** The number of such reports since `id` last turned suspect. */
  function Reports(cfg: Config, events: seq<Event>, id: string): nat {
    if events == [] || TurnsSuspect(cfg, events, id) then 0
    else Reports(cfg, events[..|events| - 1], id) + if CountedReport(cfg, events, id) then 1 else 0
  }

  /** What the history says about the peer `id`. */
  ghost predicate History(cfg: Config, events: seq<Event>, id: string) {
    var peers := Run(cfg, events);
    && (id in peers <==> LastHeard(cfg, events, id).Some?)
    && (id in peers ==>
          && id != cfg.self
          && peers[id].lastSeen == LastHeard(cfg, events, id).value && Some(peers[id].url) == LastUrl(cfg, events, id)
          && (peers[id].state == Alive ==> peers[id].confirmations == 0)
          && (peers[id].state == Suspect ==> peers[id].confirmations == Reports(cfg, events, id)))
  }

  /**
   In every run: a node is not its own peer, a peer has the url and the time of its last hearing, an alive
   peer has no confirmations, and those of a suspect peer are the reports counted since it turned suspect.
   */
  lemma {:induction false} RunHistory(cfg: Config, events: seq<Event>, id: string)
    ensures History(cfg, events, id)
  {
    if events != [] {
      RunHistory(cfg, events[..|events| - 1], id);
    }
  }

  /**
   A peer dies exactly at a reap tick that finds it suspect and either silent, since it was last
   heard, for longer than the limit, or reported at least quorum times since it turned suspect.
   */
  lemma DiesExactly(cfg: Config, events: seq<Event>, e: Event, id: string)
    ensures !StateIs(Run(cfg, events), id, Dead) && StateIs(Run(cfg, events + [e]), id, Dead) <==>
            && e.Reap? && StateIs(Run(cfg, events), id, Suspect) && LastHeard(cfg, events, id).Some?
            && (e.now > LastHeard(cfg, events, id).value + e.limit || Reports(cfg, events, id) >= cfg.quorum)
  {
    RunHistory(cfg, events, id);
    assert (events + [e])[..|events|] == events;
  }

  // ---------------------------------------------------------------- reports and reporters

  /** Who has reported `id`, by a report that counted, since `id` last turned suspect. */
  function Reporters(cfg: Config, events: seq<Event>, id: string): set<string> {
    if events == [] || TurnsSuspect(cfg, events, id) then {}
    else
      Reporters(cfg, events[..|events| - 1], id)
      + if CountedReport(cfg, events, id) then {events[|events| - 1].reporter} else {}
  }

  /** There are at most as many reporters as reports, and at least one if there is a report. */
  lemma {:induction false} ReportersOfReports(cfg: Config, events: seq<Event>, id: string)
    ensures |Reporters(cfg, events, id)| <= Reports(cfg, events, id)
    ensures Reports(cfg, events, id) > 0 ==> |Reporters(cfg, events, id)| > 0
  {
    if events != [] {
      ReportersOfReports(cfg, events[..|events| - 1], id);
    }
  }

  /** `id` dies at `e` although it was not silent for longer than the limit. */
  ghost predicate DiesByReports(cfg: Config, events: seq<Event>, e: Event, id: string) {
    && !StateIs(Run(cfg, events), id, Dead) && StateIs(Run(cfg, events + [e]), id, Dead)
    && e.Reap? && LastHeard(cfg, events, id).Some? && e.now <= LastHeard(cfg, events, id).value + e.limit
  }

  /** The run in which `r` reports `t` again and again. */
  function Nagging(r: string, t: string, k: nat): seq<Event> {
    if k == 0 then [Hear("", t, 0), Suspects(0, 1)] else Nagging(r, t, k - 1) + [Report(r, t)]
  }

  /** After `k` reports `t` is suspect with `k` confirmations, all by `r`. */
  ghost predicate Nagged(cfg: Config, events: seq<Event>, r: string, t: string, k: nat) {
    && Run(cfg, events) == map[t := Peer("", Suspect, 0, k)]
    && Reporters(cfg, events, t) <= {r} && LastHeard(cfg, events, t) == Some(0)
  }

  lemma NaggingStart(cfg: Config, r: string, t: string)
    requires t != cfg.self
    ensures Nagged(cfg, Nagging(r, t, 0), r, t, 0)
  {
    var one, events := [Hear("", t, 0)], Nagging(r, t, 0);
    assert events[..1] == one && one[..0] == [];
    assert Run(cfg, one) == map[t := Peer("", Alive, 0, 0)];
    assert Run(cfg, events) == Suspected(Run(cfg, one), 0, 1);
    assert TurnsSuspect(cfg, events, t);
  }

  lemma NaggingStep(cfg: Config, events: seq<Event>, r: string, t: string, k: nat)
    requires Nagged(cfg, events, r, t, k)
    ensures Nagged(cfg, events + [Report(r, t)], r, t, k + 1)
  {
    var next := events + [Report(r, t)];
    assert next[..|next| - 1] == events;
    assert Run(cfg, next) == Reported(Run(cfg, events), r, t);
  }

  lemma {:induction false} NaggingRun(cfg: Config, r: string, t: string, k: nat)
    requires t != cfg.self
    ensures Nagged(cfg, Nagging(r, t, k), r, t, k)
  {
    if k == 0 {
      NaggingStart(cfg, r, t);
    } else {
      NaggingRun(cfg, r, t, k - 1);
      NaggingStep(cfg, Nagging(r, t, k - 1), r, t, k - 1);
    }
  }

  /** One reporter, even the target itself, can kill a peer within the silence limit, whatever the quorum. */
  lemma OneReporterKills(cfg: Config, r: string, t: string)
    requires t != cfg.self
    ensures DiesByReports(cfg, Nagging(r, t, cfg.quorum), Reap(1, 1), t)
    ensures |Reporters(cfg, Nagging(r, t, cfg.quorum), t)| <= 1
  {
    var events := Nagging(r, t, cfg.quorum);
    NaggingRun(cfg, r, t, cfg.quorum);
    assert (events + [Reap(1, 1)])[..|events|] == events;
    assert Reporters(cfg, events, t) == {} || Reporters(cfg, events, t) == {r};
  }

  /** In every run, a peer that dies within the silence limit was reported by at least quorum different reporters. */
  ghost predicate QuorumCountsReporters(cfg: Config) {
    forall events, e, id | DiesByReports(cfg, events, e, id) :: |Reporters(cfg, events, id)| >= cfg.quorum
  }

  /** The quorum counts reporters, not just reports, exactly when it is at most 1. */
  lemma QuorumExactly(cfg: Config)
    ensures QuorumCountsReporters(cfg) <==> cfg.quorum <= 1
  {
    if cfg.quorum <= 1 {
      forall events, e, id | DiesByReports(cfg, events, e, id) ensures |Reporters(cfg, events, id)| >= cfg.quorum {
        DiesExactly(cfg, events, e, id);
        ReportersOfReports(cfg, events, id);
      }
    } else {
      OneReporterKills(cfg, "", cfg.self + "x");
    }
  }

  /** Only hearing from a dead peer revives it; otherwise it stays dead or is removed. */
  lemma OnlyHearingRevives(cfg: Config, events: seq<Event>, e: Event, id: string)
    requires StateIs(Run(cfg, events), id, Dead)
    ensures id !in Run(cfg, events + [e]) <==> e == Leave(id)
    ensures id in Run(cfg, events + [e]) && Run(cfg, events + [e])[id].state != Dead <==> e.Hear? && e.id == id
    ensures e.Hear? && e.id == id ==> StateIs(Run(cfg, events + [e]), id, Alive)
  {
    RunHistory(cfg, events, id);
    assert (events + [e])[..|events|] == events;
  }

  /** A peer turns suspect exactly at a suspect tick that finds it alive and silent for longer than the window. */
  lemma {:induction false} SuspectedExactly(cfg: Config, events: seq<Event>, e: Event, id: string)
    ensures TurnsSuspect(cfg, events + [e], id) <==>
            && e.Suspects? && StateIs(Run(cfg, events), id, Alive) && LastHeard(cfg, events, id).Some?
            && e.now > LastHeard(cfg, events, id).value + e.window
  {
    RunHistory(cfg, events, id);
    assert (events + [e])[..|events|] == events;
  }

  /** At every suspect tick of the run, `id` was heard from within the window. */
  ghost predicate NeverSilent(cfg: Config, events: seq<Event>, id: string) {
    forall i | 0 <= i < |events| && events[i].Suspects? :: HeardWithin(cfg, events, i, id)
  }

  ghost predicate HeardWithin(cfg: Config, events: seq<Event>, i: nat, id: string)
    requires i < |events| && events[i].Suspects?
  {
    var heard := LastHeard(cfg, events[..i], id);
    heard.Some? ==> events[i].now <= heard.value + events[i].window
  }

  /** A peer that is never silent for longer than the window is alive in every state of the run. */
  lemma {:induction false} NeverSuspected(cfg: Config, events: seq<Event>, id: string)
    requires NeverSilent(cfg, events, id)
    ensures id in Run(cfg, events) ==> Run(cfg, events)[id].state == Alive
  {
    if events != [] {
      var front, e := events[..|events| - 1], events[|events| - 1];
      forall i | 0 <= i < |front| && front[i].Suspects? ensures HeardWithin(cfg, front, i, id) {
        assert HeardWithin(cfg, events, i, id) && front[..i] == events[..i];
      }
      NeverSuspected(cfg, front, id);
      RunHistory(cfg, front, id);
      assert e.Suspects? ==> HeardWithin(cfg, events, |front|, id);
    }
  }

  // ---------------------------------------------------------------- runs of the class

  /** One call on a node; its peers make the corresponding step. */
  method Perform(node: GossipNode, e: Event)
    modifies node
    ensures node.peers == Step(Config(node.nodeId, node.quorum), old(node.peers), e)
  {
    match e {
      case Hear(url, id, now) => node.MarkAlive(url, id, now);
      case Suspects(window, now) =>
        var newly := node.TickSuspects(window, now);
      case Reap(limit, now) =>
        var newly := node.TickReap(limit, now);
      case Report(reporter, target) => node.ReportMissing(reporter, target);
      case Leave(id) => node.Remove(id);
    }
  }

  /** Any run of calls on a new node: its peers are those of the run. */
  method Replay(id: string, quorum: nat, now: nat, events: seq<Event>) returns (node: GossipNode)
    ensures fresh(node) && node.peers == Run(Config(id, if quorum < 1 then 1 else quorum), events)
  {
    node := new GossipNode(id, quorum, now);
    ghost var cfg := Config(id, if quorum < 1 then 1 else quorum);
    for i := 0 to |events|
      invariant fresh(node) && cfg == Config(node.nodeId, node.quorum) && node.peers == Run(cfg, events[..i])
    {
      Perform(node, events[i]);
      assert events[..i + 1][..i] == events[..i];
    }
    assert events[..|events|] == events;
  }
}
